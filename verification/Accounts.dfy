/** Mapping a user into both account files, with rollback and verification by reading back. */
module Accounts {
  import opened Prelude
  import opened TextScan
  import opened TextLines
  import opened PasswdFile
  import opened GroupFile

  /** Which accesses to the files fail. */
  datatype Faults = Faults(passwdRead: bool, groupRead: bool, passwdWrite: bool, groupWrite: bool, rollback: bool)

  predicate IsRoot(t: Target) {
    t.uid == 0 && t.user == "root"
  }

  /** The identities `map_user` takes: only root is UID 0, and root is only UID 0. */
  predicate IsMappable(t: Target) {
    && IsUserName(t.user) && IsAccountField(t.home)
    && t.home != "" && t.home[0] == '/'
    && (t.uid == 0 <==> t.user == "root")
  }

  function GroupText(group: Option<string>): string {
    if group.Some? then group.value else ""
  }

  predicate IsAccepted(passwd: Option<string>, group: Option<string>, t: Target) {
    IsMappable(t) && passwd.Some? && Applied(passwd.value, t).Ok? && AppliedGroup(GroupText(group), t).Ok?
  }

  function NoFaults(): Faults {
    Faults(false, false, false, false, false)
  }

  class AccountFiles {
    var passwd: Option<string>
    var group: Option<string>

    /**
     Success leaves both files reconciled and the target readable; the read-back check
     never fails. An error leaves both files as they were, unless the second write and
     then the rollback of the first one fail.
     */
    method MapUser(t: Target, faults: Faults) returns (r: Result<bool, AccountError>)
      requires t.uid <= U32_MAX && t.gid <= U32_MAX
      modifies this
      ensures r.Ok? ==> IsMappable(t)
      ensures IsRoot(t) ==> passwd == old(passwd) && group == old(group)
      ensures r.Ok? && !IsRoot(t) ==>
                && old(passwd).Some? && passwd.Some?
                && Applied(old(passwd).value, t) == Ok(passwd.value)
                && AppliedGroup(GroupText(old(group)), t) == Ok(GroupText(group))
                && (r.value <==> ReconciledPasswd(old(passwd).value, t).value.changed)
                && (forall q :: AsksFor(q, t) ==> IsTheTarget(Lookup(Lines(passwd.value), q), t))
      ensures r.Err? ==> group == old(group) && (passwd == old(passwd) || (faults.groupWrite && faults.rollback))
      ensures IsAccepted(old(passwd), old(group), t) && faults == NoFaults() ==> r.Ok?
    {
      if !IsMappable(t) {
        return Err(InvalidIdentity);
      }
      if IsRoot(t) {
        return Ok(false);
      }
      if passwd.None? || faults.passwdRead {
        return Err(Unreadable);
      }
      var accounts := ReconcilePasswd(passwd.value, t);
      if accounts.Err? {
        return Err(accounts.error);
      }
      if group.Some? && faults.groupRead {
        return Err(Unreadable);
      }
      var groups := ReconcileGroup(GroupText(group), t);
      if groups.Err? {
        return Err(groups.error);
      }
      r := Replace(t, accounts.value, groups.value, faults);
    }

    /** Both replacements, the rollback between them, and the check after them. */
    method Replace(t: Target, accounts: Reconciled, groups: Reconciled, faults: Faults) returns (r: Result<bool, AccountError>)
      requires IsTarget(t) && passwd.Some?
      requires ReconciledPasswd(passwd.value, t) == Ok(accounts) && ReconciledGroup(GroupText(group), t) == Ok(groups)
      modifies this
      ensures r.Ok? ==>
                && passwd.Some?
                && Applied(old(passwd).value, t) == Ok(passwd.value)
                && AppliedGroup(GroupText(old(group)), t) == Ok(GroupText(group))
                && r.value == accounts.changed
                && (forall q :: AsksFor(q, t) ==> IsTheTarget(Lookup(Lines(passwd.value), q), t))
      ensures r.Err? ==> group == old(group) && (passwd == old(passwd) || (faults.groupWrite && faults.rollback))
      ensures r.Err? ==> r.error == WriteFailed && (faults.passwdWrite || faults.groupWrite)
    {
      var original := passwd;
      if accounts.changed {
        if faults.passwdWrite {
          return Err(WriteFailed);
        }
        passwd := Some(accounts.contents);
      }
      if groups.changed {
        if faults.groupWrite {
          if accounts.changed && !faults.rollback {
            passwd := original;
          }
          return Err(WriteFailed);
        }
        group := Some(groups.contents);
      }
      forall q | AsksFor(q, t)
        ensures IsTheTarget(Lookup(Lines(passwd.value), q), t)
      {
        ReadBackFindsTarget(original.value, t, q);
      }
      var mapped := LookupFileUser(passwd, ByName(t.user));
      assert AsksFor(ByName(t.user), t);
      if !IsTheTarget(mapped, t) {
        return Err(NotReadBack);
      }
      return Ok(accounts.changed);
    }
  }
}
