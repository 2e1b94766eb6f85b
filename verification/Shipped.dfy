/** The permission catalog and default role sets this build ships. */
module Shipped {
  import opened Permissions
  import opened RoleStore

  datatype Permission =
    | ServerView | PerformanceView | PerformanceTest
    | ServerStart | ServerStop | ServerRestart | ServerForceStop
    | ConsoleView | ConsoleUse | PlayersView | PlayersManage
    | FilesManage | ConfigManage | IconManage | ImportManage
    | BackupsView | BackupsCreate | BackupsRestore | SchedulesManage
    | ActivityView | UsersManage | RolesManage | PlayitManage | BotsManage | HostView

  function Requirements(p: Permission): seq<Permission> {
    match p
    case ServerView | ActivityView | UsersManage | RolesManage | HostView => []
    case PerformanceTest => [PerformanceView]
    case ConsoleUse => [ConsoleView]
    case PlayersManage => [PlayersView]
    case BackupsCreate | BackupsRestore => [BackupsView]
    case SchedulesManage => [ServerView, ServerStart, ServerStop, ServerRestart, ConsoleUse, BackupsCreate]
    case _ => [ServerView]
  }

  function AssignableTo(p: Permission): set<Role> {
    match p
    case ServerView | PerformanceView | ConsoleView | PlayersView | BackupsView | ActivityView | HostView =>
      {Admin, Member, Viewer}
    case RolesManage | PlayitManage => {Admin}
    case _ => {Admin, Member}
  }

  predicate HeldByDefault(role: Role, p: Permission) {
    match role
    case Owner => true
    case Admin => p != RolesManage && p != PlayitManage
    case Member => p in {ServerView, ServerStart, ServerStop, ServerRestart, PlayersView}
    case Viewer => p in {ServerView, PlayersView, ConsoleView}
  }

  function DefaultSet(role: Role): set<Permission> {
    set p: Permission | HeldByDefault(role, p)
  }

  function ShippedPolicy(): Policy<Permission> {
    Policy(map p: Permission | true :: Definition(Requirements(p), AssignableTo(p)),
           map r: Role | true :: DefaultSet(r),
           RolesManage)
  }

  /** Every shipped default set is closed under the catalog's requirements ... */
  lemma ShippedIsWellFormed()
    ensures WellFormed(ShippedPolicy())
  {
    var b := ShippedPolicy();
    forall r: Role ensures r in b.defaults && Closed(b.catalog, b.defaults[r]) {
      forall p | p in b.defaults[r] ensures Supported(b.catalog, b.defaults[r], p) {
        RequirementsHeld(r, p);
      }
    }
  }

  lemma RequirementsHeld(r: Role, p: Permission)
    requires HeldByDefault(r, p)
    ensures forall i :: 0 <= i < |Requirements(p)| ==> HeldByDefault(r, Requirements(p)[i])
  {
  }

  /** ... and may be assigned to its role, so a request for the defaults is valid. */
  lemma DefaultsCanBeRequested(role: Role, requested: seq<Permission>)
    requires role != Owner && Desired(requested) == ShippedPolicy().defaults[role]
    ensures ValidDesired(ShippedPolicy(), role, requested)
  {
    ShippedIsWellFormed();
    forall i | 0 <= i < |requested| ensures Assignable(ShippedPolicy(), requested[i], role) {
      assert requested[i] in Desired(requested);
    }
  }

  /** As shipped an Admin cannot edit roles at all: the permission to do so is the
      Owner's to give. */
  lemma {:induction false} ShippedAdminChangesNothing(run: seq<Request<Permission>>)
    requires forall i :: 0 <= i < |run| ==> run[i].actor != Owner
    ensures WellFormed(ShippedPolicy())
    ensures Final(ShippedPolicy(), Tables(map[], map[]), run) == Tables(map[], map[])
    decreases |run|
  {
    ShippedIsWellFormed();
    if run != [] {
      ShippedAdminChangesNothing(run[1..]);
    }
  }
}
