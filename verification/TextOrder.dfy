/** The order of Rust's strings, which ordered maps keep their keys in. */
module TextOrder {

  /** Lexicographic, by code point. */
  predicate TextNoLater(a: string, b: string) {
    a == "" || (b != "" && (a[0] < b[0] || (a[0] == b[0] && TextNoLater(a[1..], b[1..]))))
  }

  lemma {:induction false} TextOrderIsTotal(a: string, b: string)
    ensures TextNoLater(a, b) || TextNoLater(b, a)
    ensures TextNoLater(a, b) && TextNoLater(b, a) ==> a == b
    decreases |a|
  {
    if a != "" && b != "" {
      TextOrderIsTotal(a[1..], b[1..]);
      assert a == [a[0]] + a[1..] && b == [b[0]] + b[1..];
    }
  }

  lemma {:induction false} TextOrderIsTransitive(a: string, b: string, c: string)
    requires TextNoLater(a, b) && TextNoLater(b, c)
    ensures TextNoLater(a, c)
    decreases |a|
  {
    if a != "" && a[0] == b[0] == c[0] {
      TextOrderIsTransitive(a[1..], b[1..], c[1..]);
    }
  }
}
