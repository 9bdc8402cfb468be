/** Bootstrap actions: the records shared by validation, planning and execution. */
module Actions {
  import opened Prelude
  import opened TextScan

  const MAX_BOOTSTRAP_ACTIONS: nat := 8192

  datatype RunAs = Root | Target | Current

  datatype FailurePolicy = Error | Warn | Ignore

  datatype SourceKind =
    | ImageProfile | AdminProfile | UserOverlay | WorkspaceOverlay | Runtime | Cli | Unknown
  {
    predicate IsTrusted() {
      ImageProfile? || AdminProfile?
    }
  }

  datatype ActionKind =
    | IdentityResolve
    | IdentityMapUser
    | IdentityEnsureHome
    | FilesystemEnsureDir
    | FilesystemEnsureFile
    | FilesystemEnsureSymlink
    | FilesystemChown
    | FilesystemChmod
    | ProcessSetUserShell
    | ProcessDropPrivileges
    | ServiceSshPrepare
    | CgroupV2Init
    | HandoffExec

  /** Plan phases in their order, as numbers so that they compare. */
  const PHASE_ROOT: nat := 0
  const PHASE_CURRENT: nat := 1
  const PHASE_TARGET: nat := 2
  const PHASE_HANDOFF: nat := 3

  function PhaseOf(kind: ActionKind, runAs: RunAs): (phase: nat)
    ensures phase == PHASE_HANDOFF <==> kind.HandoffExec? || kind.ProcessDropPrivileges?
    ensures phase != PHASE_HANDOFF && kind.CgroupV2Init? ==> phase == PHASE_ROOT
    ensures phase != PHASE_HANDOFF && !kind.CgroupV2Init? ==>
              && (phase == PHASE_ROOT <==> runAs.Root?)
              && (phase == PHASE_CURRENT <==> runAs.Current?)
              && (phase == PHASE_TARGET <==> runAs.Target?)
  {
    if kind.HandoffExec? || kind.ProcessDropPrivileges? then PHASE_HANDOFF
    else if (kind.IdentityResolve? || kind.IdentityMapUser? || kind.IdentityEnsureHome?) && runAs.Root? then PHASE_ROOT
    else if kind.CgroupV2Init? then PHASE_ROOT
    else match runAs
      case Root => PHASE_ROOT
      case Current => PHASE_CURRENT
      case Target => PHASE_TARGET
  }

  datatype Action = Action(
    id: string,
    kind: ActionKind,
    path: Option<string>,
    link: Option<string>,
    target: Option<string>,
    mode: Option<string>,
    parentMode: Option<string>,
    owner: Option<string>,
    user: Option<string>,
    shell: Option<string>,
    content: Option<string>,
    hostKeyDir: Option<string>,
    authorizedKeysDir: Option<string>,
    authorizedKeysSource: Option<string>,
    runtimeDir: Option<string>,
    sshKeygen: Option<string>,
    subgroup: Option<string>,
    shadowPath: Option<string>,
    condition: Option<string>,
    failure: FailurePolicy,
    runAs: RunAs,
    dependsOn: seq<string>,
    source: SourceKind)
  {
    function Phase(): nat {
      PhaseOf(kind, runAs)
    }

    /** Text fields an identity interpolation may hide in. */
    function IdentityFields(): seq<Option<string>> {
      [path, link, target, owner, user, shell, hostKeyDir, authorizedKeysDir,
       authorizedKeysSource, runtimeDir, subgroup, shadowPath]
    }

    predicate ReferencesIdentity() {
      || (!kind.IdentityResolve?
          && exists field :: field in IdentityFields() && field.Some? && Contains(field.value, "${identity."))
      || owner == Some("identity.target")
      || user == Some("identity.target")
      || kind.IdentityMapUser? || kind.IdentityEnsureHome? || kind.ServiceSshPrepare?
      || kind.ProcessDropPrivileges?
    }
  }
}
