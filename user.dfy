/** app/Models/User.php: the role predicates and the role scopes. */
module UserModel {
  import opened Wrappers
  import opened Seqs

  /** A users row; role is the stored string, which need not be one of the three known roles. */
  datatype User = User(id: int, name: string, email: string, role: string, isActive: bool)

  /** The exists:users,id rule: some row has the id, whatever its role. */
  predicate HasUser(users: seq<User>, id: int)
  {
    exists i :: 0 <= i < |users| && users[i].id == id
  }

  /** User::findOrFail: the first row with the id, or None (a 404). */
  function FindUser(users: seq<User>, id: int): (r: Option<User>)
    ensures r.Some? ==> r.value in users && r.value.id == id
    ensures r.None? <==> !HasUser(users, id)
  {
    First(users, (u: User) => u.id == id)
  }

  const AdminRole: string := "admin"
  const AgentRole: string := "agent"
  const ClientRole: string := "client"

  predicate IsAdmin(u: User) { u.role == AdminRole }
  predicate IsAgent(u: User) { u.role == AgentRole }
  predicate IsClient(u: User) { u.role == ClientRole }

  /** The closed enumeration behind the three string comparisons. */
  datatype Role = Admin | Agent | Client

  /** Classifies a user; a role string outside the three gives None. */
  function RoleOf(u: User): (r: Option<Role>)
    ensures r == Some(Admin) <==> IsAdmin(u)
    ensures r == Some(Agent) <==> IsAgent(u)
    ensures r == Some(Client) <==> IsClient(u)
    ensures r.None? <==> u.role !in {AdminRole, AgentRole, ClientRole}
  {
    if IsAdmin(u) then Some(Admin)
    else if IsAgent(u) then Some(Agent)
    else if IsClient(u) then Some(Client)
    else None
  }

  /** At most one role predicate holds, and an unknown role satisfies none. */
  lemma RolesExclusive(u: User)
    ensures !(IsAdmin(u) && IsAgent(u)) && !(IsAdmin(u) && IsClient(u)) && !(IsAgent(u) && IsClient(u))
    ensures u.role !in {AdminRole, AgentRole, ClientRole} ==> !IsAdmin(u) && !IsAgent(u) && !IsClient(u)
  {
  }

  function ScopeAgents(users: seq<User>): (r: seq<User>)
    ensures forall u :: u in r <==> u in users && u.role == "agent"
  {
    Filter(users, IsAgent)
  }

  function ScopeClients(users: seq<User>): (r: seq<User>)
    ensures forall u :: u in r <==> u in users && u.role == "client"
  {
    Filter(users, IsClient)
  }

  function ScopeAdmins(users: seq<User>): (r: seq<User>)
    ensures forall u :: u in r <==> u in users && u.role == "admin"
  {
    Filter(users, IsAdmin)
  }

  lemma ScopesDisjoint(users: seq<User>)
    ensures forall u :: !(u in ScopeAgents(users) && u in ScopeClients(users))
    ensures forall u :: !(u in ScopeAgents(users) && u in ScopeAdmins(users))
    ensures forall u :: !(u in ScopeClients(users) && u in ScopeAdmins(users))
  {
  }

  /** Every user is counted by at most one scope, so the three counts add up to at most the table size. */
  lemma {:induction false} ScopeCountsBounded(users: seq<User>)
    ensures |ScopeAgents(users)| + |ScopeClients(users)| + |ScopeAdmins(users)| <= |users|
  {
    if users != [] {
      ScopeCountsBounded(users[1..]);
      assert ScopeAgents(users) == (if IsAgent(users[0]) then [users[0]] else []) + ScopeAgents(users[1..]);
      assert ScopeClients(users) == (if IsClient(users[0]) then [users[0]] else []) + ScopeClients(users[1..]);
      assert ScopeAdmins(users) == (if IsAdmin(users[0]) then [users[0]] else []) + ScopeAdmins(users[1..]);
    }
  }

  /** orderBy('name') */
  function ByName(): (le: (User, User) -> bool)
    ensures TotalPreorder(le)
    ensures forall a, b :: le(a, b) <==> LexLe(a.name, b.name)
  {
    var le := (a: User, b: User) => LexLe(a.name, b.name);
    ByStringKey(le, (u: User) => u.name);
    le
  }
}
