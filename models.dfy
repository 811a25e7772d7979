/** The permission flags, roles, users and recipe images of app/models.py. */
module Models {
  import opened Base

  /* ---- Permission: bit flags over non-negative Python ints ---- */

  const FOLLOW: nat := 0x01
  const COMMENT: nat := 0x02
  const WRITE_RECIPES: nat := 0x04
  const MODERATE_COMMENTS: nat := 0x08
  /** The same bit as MODERATE_COMMENTS. */
  const ADMINISTER: nat := 0x08

  /** Bit i of n. */
  predicate Bit(n: nat, i: nat) {
    if i == 0 then n % 2 == 1 else Bit(n / 2, i - 1)
  }

  /** a & b */
  function And(a: nat, b: nat): nat {
    if a == 0 || b == 0 then 0
    else 2 * And(a / 2, b / 2) + (if a % 2 == 1 && b % 2 == 1 then 1 else 0)
  }

  /** a | b */
  function Or(a: nat, b: nat): nat {
    if a == 0 then b
    else if b == 0 then a
    else 2 * Or(a / 2, b / 2) + (if a % 2 == 1 || b % 2 == 1 then 1 else 0)
  }

  function Pow2(k: nat): (r: nat)
    ensures r >= 1
  {
    if k == 0 then 1 else 2 * Pow2(k - 1)
  }

  lemma {:induction false} ZeroBits(i: nat)
    ensures !Bit(0, i)
  {
    if i > 0 {
      ZeroBits(i - 1);
    }
  }

  /** Bit i of a & b is set exactly when it is set in both. */
  lemma {:induction false} AndBits(a: nat, b: nat, i: nat)
    ensures Bit(And(a, b), i) <==> Bit(a, i) && Bit(b, i)
    decreases i
  {
    if a == 0 || b == 0 {
      ZeroBits(i);
    } else if i > 0 {
      var low := if a % 2 == 1 && b % 2 == 1 then 1 else 0;
      assert And(a, b) / 2 == And(a / 2, b / 2);
      AndBits(a / 2, b / 2, i - 1);
    }
  }

  /** Bit i of a | b is set exactly when it is set in either. */
  lemma {:induction false} OrBits(a: nat, b: nat, i: nat)
    ensures Bit(Or(a, b), i) <==> Bit(a, i) || Bit(b, i)
    decreases i
  {
    if a == 0 {
      ZeroBits(i);
    } else if b == 0 {
      ZeroBits(i);
    } else if i > 0 {
      assert Or(a, b) / 2 == Or(a / 2, b / 2);
      OrBits(a / 2, b / 2, i - 1);
    }
  }

  /** Two numbers with the same bits are equal. */
  lemma {:induction false} SameBits(a: nat, b: nat)
    requires forall i: nat :: Bit(a, i) <==> Bit(b, i)
    ensures a == b
    decreases a + b
  {
    assert Bit(a, 0) <==> Bit(b, 0);
    if a + b > 0 {
      forall i: nat ensures Bit(a / 2, i) <==> Bit(b / 2, i) {
        assert Bit(a, i + 1) <==> Bit(b, i + 1);
      }
      SameBits(a / 2, b / 2);
    }
  }

  /** (held & p) == p says that every bit of p is held. */
  lemma HoldsAll(held: nat, p: nat)
    ensures And(held, p) == p <==> forall i: nat :: Bit(p, i) ==> Bit(held, i)
  {
    if And(held, p) == p {
      forall i: nat | Bit(p, i) ensures Bit(held, i) {
        AndBits(held, p, i);
        assert Bit(And(held, p), i);
      }
    } else {
      MissingBit(held, p);
    }
  }

  lemma MissingBit(held: nat, p: nat)
    requires And(held, p) != p
    ensures !(forall i: nat :: Bit(p, i) ==> Bit(held, i))
  {
    forall i: nat ensures Bit(And(held, p), i) <==> Bit(held, i) && Bit(p, i) {
      AndBits(held, p, i);
    }
    if forall i: nat :: Bit(p, i) ==> Bit(held, i) {
      SameBits(And(held, p), p);
    }
  }

  /** 2**k - 1 holds every flag below bit k. */
  lemma {:induction false} LowOnes(k: nat, p: nat)
    requires p < Pow2(k)
    ensures And(Pow2(k) - 1, p) == p
  {
    if p > 0 {
      assert k > 0;
      assert (Pow2(k) - 1) / 2 == Pow2(k - 1) - 1 && (Pow2(k) - 1) % 2 == 1;
      LowOnes(k - 1, p / 2);
    }
  }

  /* ---- Role ---- */

  /** A row of the roles table. */
  datatype Role = Role(name: string, default: bool, permissions: nat)

  /** User.can for a user whose role is role: a role is present and
      (role.permissions & p) == p. */
  predicate Can(role: Option<Role>, p: nat) {
    role.Some? && And(role.value.permissions, p) == p
  }

  /** User.is_administrator */
  predicate IsAdministrator(role: Option<Role>) {
    Can(role, ADMINISTER)
  }

  /** can holds exactly when a role is present and holds every bit asked for. */
  lemma CanIff(role: Option<Role>, p: nat)
    ensures Can(role, p) <==> role.Some? && forall i: nat :: Bit(p, i) ==> Bit(role.value.permissions, i)
  {
    if role.Some? {
      HoldsAll(role.value.permissions, p);
    }
  }

  /** can(0) holds for every user with a role, and nothing holds without one. */
  lemma CanNothing(role: Option<Role>, p: nat)
    ensures Can(role, 0) <==> role.Some?
    ensures role.None? ==> !Can(role, p)
  {
    if role.Some? {
      assert And(role.value.permissions, 0) == 0;
    }
  }

  /** A user who can do p and q can do p | q, and conversely. */
  lemma CanUnion(role: Option<Role>, p: nat, q: nat)
    ensures Can(role, Or(p, q)) <==> Can(role, p) && Can(role, q)
  {
    CanIff(role, p);
    CanIff(role, q);
    CanIff(role, Or(p, q));
    forall i: nat ensures Bit(Or(p, q), i) <==> Bit(p, i) || Bit(q, i) {
      OrBits(p, q, i);
    }
  }

  /** ADMINISTER and MODERATE_COMMENTS are one flag: whoever may moderate
      comments is an administrator. */
  lemma AdministerIsModerate(role: Option<Role>)
    ensures IsAdministrator(role) <==> Can(role, MODERATE_COMMENTS)
  {
  }

  /** The permissions insert_roles gives each role. */
  const UserPermissions: nat := Or(Or(FOLLOW, COMMENT), WRITE_RECIPES)
  const ModeratorPermissions: nat := Or(Or(Or(FOLLOW, COMMENT), WRITE_RECIPES), MODERATE_COMMENTS)
  const AdministratorPermissions: nat := 0xff

  lemma PermissionValues()
    ensures UserPermissions == 0x07 && ModeratorPermissions == 0x0f
  {
    assert Or(FOLLOW, COMMENT) == 3;
  }

  /** The Moderator role counts as administrator; the User role does not;
      the Administrator role can do anything up to 0xff. */
  lemma RoleRanks(p: nat)
    ensures IsAdministrator(Some(Role("Moderator", false, ModeratorPermissions)))
    ensures !IsAdministrator(Some(Role("User", true, UserPermissions)))
    ensures Can(Some(Role("User", true, UserPermissions)), WRITE_RECIPES)
    ensures p <= 0xff ==> Can(Some(Role("Administrator", false, AdministratorPermissions)), p)
  {
    PermissionValues();
    assert And(0x0f, 0x08) == 0x08;
    assert And(0x07, 0x08) == 0;
    assert And(0x07, 0x04) == 0x04;
    if p <= 0xff {
      assert Pow2(8) == 0x100;
      LowOnes(8, p);
    }
  }

  /** current_user: the AnonymousUser, or a signed-in User with its id and role. */
  datatype Principal = Anonymous | Member(id: int, role: Option<Role>)

  /** User.can, and AnonymousUser.can, which is always False. */
  predicate PrincipalCan(u: Principal, p: nat) {
    match u
    case Anonymous => false
    case Member(_, role) => Can(role, p)
  }

  /** User.is_administrator, and AnonymousUser.is_administrator (False). */
  predicate PrincipalIsAdministrator(u: Principal) {
    match u
    case Anonymous => false
    case Member(_, role) => IsAdministrator(role)
  }

  /** The anonymous user can do nothing, not even can(0); a signed-in user
      can do p exactly when its role holds every bit of p. */
  lemma PrincipalCanIff(u: Principal, p: nat)
    ensures PrincipalCan(u, p) <==>
      u.Member? && u.role.Some? && forall i: nat :: Bit(p, i) ==> Bit(u.role.value.permissions, i)
    ensures PrincipalIsAdministrator(u) <==> PrincipalCan(u, MODERATE_COMMENTS)
  {
    if u.Member? {
      CanIff(u.role, p);
    }
  }

  /* ---- Role.insert_roles ---- */

  /** One entry of the roles dict: name, permissions, default. */
  datatype RoleSpec = RoleSpec(name: string, permissions: nat, default: bool)

  /** The roles dict of insert_roles, in its iteration order. */
  const RoleSpecs: seq<RoleSpec> := [
    RoleSpec("User", UserPermissions, true),
    RoleSpec("Moderator", ModeratorPermissions, false),
    RoleSpec("Administrator", AdministratorPermissions, false)
  ]

  function RowOf(s: RoleSpec): Role {
    Role(s.name, s.default, s.permissions)
  }

  /** Role.query.filter_by(name=name).first(): the first row with that name. */
  function FindRole(rows: seq<Role>, name: string): (r: Option<nat>)
    ensures r.Some? ==> r.value < |rows| && rows[r.value].name == name
                        && forall j :: 0 <= j < r.value ==> rows[j].name != name
    ensures r.None? ==> forall j :: 0 <= j < |rows| ==> rows[j].name != name
  {
    if rows == [] then None
    else if rows[0].name == name then Some(0)
    else match FindRole(rows[1..], name)
      case None => None
      case Some(j) => Some(j + 1)
  }

  /** One round of the loop: update the row with that name, or add one. */
  function Upsert(rows: seq<Role>, s: RoleSpec): seq<Role> {
    match FindRole(rows, s.name)
    case Some(j) => rows[j := RowOf(s)]
    case None => rows + [RowOf(s)]
  }

  /** The table after the loop has visited specs in order. */
  function UpsertAll(rows: seq<Role>, specs: seq<RoleSpec>): seq<Role>
    decreases |specs|
  {
    if specs == [] then rows else Upsert(UpsertAll(rows, specs[..|specs| - 1]), specs[|specs| - 1])
  }

  /** The roles table insert_roles leaves. */
  function InsertedRoles(rows: seq<Role>): seq<Role> {
    UpsertAll(rows, RoleSpecs)
  }

  /** The roles table, changed in place by insert_roles. */
  class RoleTable {
    var rows: seq<Role>

    constructor (rows: seq<Role>)
      ensures this.rows == rows
    {
      this.rows := rows;
    }

    /** Role.insert_roles */
    method InsertRoles()
      modifies this
      ensures rows == InsertedRoles(old(rows))
    {
      var i := 0;
      while i < |RoleSpecs|
        invariant 0 <= i <= |RoleSpecs|
        invariant rows == UpsertAll(old(rows), RoleSpecs[..i])
      {
        var r := RoleSpecs[i];
        var found := FindRole(rows, r.name);
        if found.None? {
          rows := rows + [Role(r.name, false, 0)];
          found := Some(|rows| - 1);
        }
        rows := rows[found.value := Role(r.name, r.default, r.permissions)];
        assert RoleSpecs[..i + 1][..i] == RoleSpecs[..i];
        i := i + 1;
      }
      assert RoleSpecs[..i] == RoleSpecs;
    }
  }

  /** After one upsert the row of that name carries the spec's values. */
  lemma UpsertFinds(rows: seq<Role>, s: RoleSpec)
    ensures FindRole(Upsert(rows, s), s.name).Some?
    ensures Upsert(rows, s)[FindRole(Upsert(rows, s), s.name).value] == RowOf(s)
  {
    var rows' := Upsert(rows, s);
    match FindRole(rows, s.name)
    case Some(j) =>
      assert rows'[j] == RowOf(s);
      assert forall k :: 0 <= k < j ==> rows'[k] == rows[k];
    case None =>
      assert rows'[|rows|] == RowOf(s);
      assert forall k :: 0 <= k < |rows| ==> rows'[k] == rows[k];
  }

  /** An upsert keeps every existing row's name, changes only the row of its
      own name, may add one row of that name, and leaves the lookup of every
      other name as it was. */
  lemma UpsertFrame(rows: seq<Role>, s: RoleSpec)
    ensures |rows| <= |Upsert(rows, s)| <= |rows| + 1
    ensures forall j :: 0 <= j < |rows| ==> Upsert(rows, s)[j].name == rows[j].name
    ensures forall j :: 0 <= j < |rows| && rows[j].name != s.name ==> Upsert(rows, s)[j] == rows[j]
    ensures forall j :: |rows| <= j < |Upsert(rows, s)| ==> Upsert(rows, s)[j] == RowOf(s)
    ensures forall n :: n != s.name ==> FindRole(Upsert(rows, s), n) == FindRole(rows, n)
  {
    var rows' := Upsert(rows, s);
    forall n | n != s.name ensures FindRole(rows', n) == FindRole(rows, n) {
      assert forall j :: 0 <= j < |rows| ==> (rows'[j].name == n <==> rows[j].name == n);
      assert forall j :: |rows| <= j < |rows'| ==> rows'[j].name != n;
      FindSame(rows, rows', n);
    }
  }

  /** The lookup of a name depends only on where that name occurs. */
  lemma FindSame(rows: seq<Role>, rows': seq<Role>, n: string)
    requires |rows| <= |rows'|
    requires forall j :: 0 <= j < |rows| ==> (rows'[j].name == n <==> rows[j].name == n)
    requires forall j :: |rows| <= j < |rows'| ==> rows'[j].name != n
    ensures FindRole(rows', n) == FindRole(rows, n)
  {
    var a, b := FindRole(rows, n), FindRole(rows', n);
    if a.Some? {
      var v := a.value;
      assert rows'[v].name == n;
      assert forall j :: 0 <= j < v ==> rows'[j].name != n;
      match b
      case None =>
      case Some(w) =>
        assert !(w < v) && !(v < w);
    } else {
      assert forall j :: 0 <= j < |rows'| ==> rows'[j].name != n;
    }
  }

  /** An upsert whose row is already in place changes nothing. */
  lemma UpsertInPlace(rows: seq<Role>, s: RoleSpec)
    requires FindRole(rows, s.name).Some? && rows[FindRole(rows, s.name).value] == RowOf(s)
    ensures Upsert(rows, s) == rows
  {
  }

  lemma InsertedSteps(rows: seq<Role>)
    ensures InsertedRoles(rows) == Upsert(Upsert(Upsert(rows, RoleSpecs[0]), RoleSpecs[1]), RoleSpecs[2])
  {
    var s := RoleSpecs;
    assert s[..1][..0] == [] && s[..2][..1] == s[..1] && s[..3][..2] == s[..2] && s[..3] == s;
    assert UpsertAll(rows, s[..1]) == Upsert(rows, s[0]);
    assert UpsertAll(rows, s[..2]) == Upsert(UpsertAll(rows, s[..1]), s[1]);
    assert UpsertAll(rows, s[..3]) == Upsert(UpsertAll(rows, s[..2]), s[2]);
  }

  lemma SpecNamesDistinct()
    ensures RoleSpecs[0].name != RoleSpecs[1].name
    ensures RoleSpecs[0].name != RoleSpecs[2].name
    ensures RoleSpecs[1].name != RoleSpecs[2].name
  {
    assert RoleSpecs[0].name[0] == 'U' && RoleSpecs[1].name[0] == 'M' && RoleSpecs[2].name[0] == 'A';
  }

  /** The name a table holds a row for as given, in place. */
  predicate HasRow(rows: seq<Role>, s: RoleSpec) {
    FindRole(rows, s.name).Some? && rows[FindRole(rows, s.name).value] == RowOf(s)
  }

  /** After insert_roles each of the three roles is found by name with
      exactly its permissions and default flag; every row that was there
      keeps its name, every row of another name is untouched, and at most
      three rows are added, each for one of the three names. */
  lemma InsertedRolesResult(rows: seq<Role>)
    ensures forall k :: 0 <= k < |RoleSpecs| ==> HasRow(InsertedRoles(rows), RoleSpecs[k])
    ensures |rows| <= |InsertedRoles(rows)| <= |rows| + 3
    ensures forall j :: 0 <= j < |rows| ==> InsertedRoles(rows)[j].name == rows[j].name
    ensures forall j :: 0 <= j < |rows| && (forall k :: 0 <= k < |RoleSpecs| ==> rows[j].name != RoleSpecs[k].name) ==>
      InsertedRoles(rows)[j] == rows[j]
    ensures forall j :: |rows| <= j < |InsertedRoles(rows)| ==>
      exists k :: 0 <= k < |RoleSpecs| && InsertedRoles(rows)[j] == RowOf(RoleSpecs[k])
  {
    InsertedFinds(rows);
    InsertedKeeps(rows);
  }

  lemma InsertedFinds(rows: seq<Role>)
    ensures HasRow(InsertedRoles(rows), RoleSpecs[0])
    ensures HasRow(InsertedRoles(rows), RoleSpecs[1])
    ensures HasRow(InsertedRoles(rows), RoleSpecs[2])
  {
    InsertedSteps(rows);
    SpecNamesDistinct();
    var s0, s1, s2 := RoleSpecs[0], RoleSpecs[1], RoleSpecs[2];
    var r1 := Upsert(rows, s0);
    var r2 := Upsert(r1, s1);
    UpsertFinds(rows, s0);
    UpsertFinds(r1, s1);
    UpsertFinds(r2, s2);
    UpsertFrame(r1, s1);
    UpsertFrame(r2, s2);
    KeepsRow(r1, s1, s0);
    KeepsRow(r2, s2, s0);
    KeepsRow(r2, s2, s1);
  }

  /** An upsert of one name keeps the row found for another. */
  lemma KeepsRow(rows: seq<Role>, s: RoleSpec, t: RoleSpec)
    requires s.name != t.name && HasRow(rows, t)
    ensures HasRow(Upsert(rows, s), t)
  {
    UpsertFrame(rows, s);
  }

  lemma InsertedKeeps(rows: seq<Role>)
    ensures |rows| <= |InsertedRoles(rows)| <= |rows| + 3
    ensures forall j :: 0 <= j < |rows| ==> InsertedRoles(rows)[j].name == rows[j].name
    ensures forall j :: 0 <= j < |rows| && (forall k :: 0 <= k < |RoleSpecs| ==> rows[j].name != RoleSpecs[k].name) ==>
      InsertedRoles(rows)[j] == rows[j]
    ensures forall j :: |rows| <= j < |InsertedRoles(rows)| ==>
      exists k :: 0 <= k < |RoleSpecs| && InsertedRoles(rows)[j] == RowOf(RoleSpecs[k])
  {
    InsertedSteps(rows);
    var s0, s1, s2 := RoleSpecs[0], RoleSpecs[1], RoleSpecs[2];
    var r1 := Upsert(rows, s0);
    var r2 := Upsert(r1, s1);
    var r3 := Upsert(r2, s2);
    UpsertFrame(rows, s0);
    UpsertFrame(r1, s1);
    UpsertFrame(r2, s2);
    forall j | |rows| <= j < |r3|
      ensures exists k :: 0 <= k < |RoleSpecs| && r3[j] == RowOf(RoleSpecs[k])
    {
      if j < |r1| {
        assert r3[j] == RowOf(RoleSpecs[0]);
      } else if j < |r2| {
        assert r3[j] == RowOf(RoleSpecs[1]);
      } else {
        assert r3[j] == RowOf(RoleSpecs[2]);
      }
    }
  }

  /** Running insert_roles a second time changes nothing. */
  lemma InsertRolesIdempotent(rows: seq<Role>)
    ensures InsertedRoles(InsertedRoles(rows)) == InsertedRoles(rows)
  {
    var t := InsertedRoles(rows);
    InsertedRolesResult(rows);
    InsertedSteps(t);
    assert HasRow(t, RoleSpecs[0]) && HasRow(t, RoleSpecs[1]) && HasRow(t, RoleSpecs[2]);
    UpsertInPlace(t, RoleSpecs[0]);
    UpsertInPlace(t, RoleSpecs[1]);
    UpsertInPlace(t, RoleSpecs[2]);
  }

  /** Names unique before stay unique: existing rows are updated, not duplicated. */
  predicate UniqueNames(rows: seq<Role>) {
    forall i, j :: 0 <= i < j < |rows| ==> rows[i].name != rows[j].name
  }

  lemma UpsertUnique(rows: seq<Role>, s: RoleSpec)
    requires UniqueNames(rows)
    ensures UniqueNames(Upsert(rows, s))
  {
    UpsertFrame(rows, s);
  }

  lemma InsertRolesUnique(rows: seq<Role>)
    requires UniqueNames(rows)
    ensures UniqueNames(InsertedRoles(rows))
  {
    InsertedSteps(rows);
    UpsertUnique(rows, RoleSpecs[0]);
    UpsertUnique(Upsert(rows, RoleSpecs[0]), RoleSpecs[1]);
    UpsertUnique(Upsert(Upsert(rows, RoleSpecs[0]), RoleSpecs[1]), RoleSpecs[2]);
  }

  /* ---- User ---- */

  /** Role.query.filter_by(...).first(), taken as the first row in table order. */
  function FirstRole(rows: seq<Role>, byDefault: bool, permissions: nat): (r: Option<Role>)
    ensures r.Some? ==> r.value in rows
  {
    if rows == [] then None
    else if (if byDefault then rows[0].default else rows[0].permissions == permissions) then Some(rows[0])
    else FirstRole(rows[1..], byDefault, permissions)
  }

  /** The role User.__init__ settles on: the one given; else, for the admin
      address, the first role with permissions 0xff; else the first default
      role. email and adminEmail are None when unset, and None == None. */
  function ChooseRole(given: Option<Role>, email: Option<string>, adminEmail: Option<string>,
                      rows: seq<Role>): Option<Role>
  {
    if given.Some? then given
    else
      var admin := if email == adminEmail then FirstRole(rows, false, 0xff) else None;
      if admin.Some? then admin else FirstRole(rows, true, 0)
  }

  lemma {:induction false} FirstRoleIff(rows: seq<Role>, byDefault: bool, permissions: nat)
    ensures FirstRole(rows, byDefault, permissions).Some? <==>
      exists i :: 0 <= i < |rows| && (if byDefault then rows[i].default else rows[i].permissions == permissions)
    ensures FirstRole(rows, byDefault, permissions).Some? ==>
      var r := FirstRole(rows, byDefault, permissions).value;
      if byDefault then r.default else r.permissions == permissions
  {
    if rows != [] {
      FirstRoleIff(rows[1..], byDefault, permissions);
      if exists i :: 0 <= i < |rows| && (if byDefault then rows[i].default else rows[i].permissions == permissions) {
        var i :| 0 <= i < |rows| && (if byDefault then rows[i].default else rows[i].permissions == permissions);
        if i > 0 {
          assert rows[1..][i - 1] == rows[i];
        }
      }
    }
  }

  /** A given role is kept; the admin address gets an 0xff role when one
      exists; anyone else gets a default role, or none when the table has no
      default role. */
  lemma ChooseRoleMeaning(given: Option<Role>, email: Option<string>, adminEmail: Option<string>, rows: seq<Role>)
    ensures given.Some? ==> ChooseRole(given, email, adminEmail, rows) == given
    ensures given.None? && email == adminEmail && (exists i :: 0 <= i < |rows| && rows[i].permissions == 0xff) ==>
      var r := ChooseRole(given, email, adminEmail, rows);
      r.Some? && r.value in rows && r.value.permissions == 0xff
    ensures given.None? && (email != adminEmail || forall i :: 0 <= i < |rows| ==> rows[i].permissions != 0xff) ==>
      var r := ChooseRole(given, email, adminEmail, rows);
      (r.Some? <==> exists i :: 0 <= i < |rows| && rows[i].default)
      && (r.Some? ==> r.value in rows && r.value.default)
  {
    FirstRoleIff(rows, false, 0xff);
    FirstRoleIff(rows, true, 0);
  }

  /** With no admin address configured, a user created without an email is
      taken for the admin, since None == None. */
  lemma UnsetAdminQuirk(rows: seq<Role>)
    requires exists i :: 0 <= i < |rows| && rows[i].permissions == 0xff
    ensures IsAdministrator(ChooseRole(None, None, None, rows))
  {
    ChooseRoleMeaning(None, None, None, rows);
    RoleRanks(ADMINISTER);
  }

  /** A user row: its id (None until it is stored), email, role and
      confirmed flag. */
  class User {
    var id: Option<int>
    var email: Option<string>
    var role: Option<Role>
    var confirmed: bool

    /** User.__init__, with the roles table and the admin address as inputs. */
    constructor (id: Option<int>, email: Option<string>, role: Option<Role>, confirmed: bool,
                 adminEmail: Option<string>, rows: seq<Role>)
      ensures this.id == id && this.email == email && this.confirmed == confirmed
      ensures this.role == ChooseRole(role, email, adminEmail, rows)
    {
      this.id := id;
      this.email := email;
      this.confirmed := confirmed;
      var chosen := role;
      if chosen.None? {
        if email == adminEmail {
          chosen := FirstRole(rows, false, 0xff);
        }
        if chosen.None? {
          chosen := FirstRole(rows, true, 0);
        }
      }
      this.role := chosen;
    }

    /** User.can */
    predicate UserCan(p: nat)
      reads this
    {
      Can(role, p)
    }

    /** User.confirm, with the signed token already decoded: None when
        loads() raised, else the value under 'confirm' (None when absent). */
    method Confirm(decoded: Option<Option<int>>) returns (ok: bool)
      modifies this
      ensures ok == Confirms(old(id), decoded)
      ensures confirmed == (old(confirmed) || ok)
      ensures id == old(id) && email == old(email) && role == old(role)
    {
      if decoded.None? {
        return false;
      }
      if decoded.value != id {
        return false;
      }
      confirmed := true;
      ok := true;
    }
  }

  /** Whether a decoded confirmation token confirms the user with this id. */
  predicate Confirms(id: Option<int>, decoded: Option<Option<int>>) {
    decoded.Some? && decoded.value == id
  }

  /** A stored user's own token confirms it and no other user's does; a token
      that failed to decode never does. A token without 'confirm' confirms a
      user not yet stored, since None == None. */
  lemma ConfirmsOwn(id: int, other: int)
    ensures Confirms(Some(id), Some(Some(id)))
    ensures other != id ==> !Confirms(Some(other), Some(Some(id)))
    ensures !Confirms(Some(id), None) && !Confirms(Some(id), Some(None))
    ensures Confirms(None, Some(None))
  {
  }

  /* ---- Recipe images ---- */

  /** The image files on disk, by file name. */
  class ImageStore {
    var files: set<string>

    constructor (files: set<string>)
      ensures this.files == files
    {
      this.files := files;
    }
  }

  /** delete_img: remove the image unless it is the default one; os.remove
      raises FileNotFoundError for a missing file. */
  function AfterDeleteImg(img: string, defaultImg: string, files: set<string>): (set<string>, Option<PyError>) {
    if img == defaultImg then (files, None)
    else if img in files then (files - {img}, None)
    else (files, Some(FileNotFoundError))
  }

  /** update_img: the name, the files and the error it leaves. An error from
      delete_img comes before the assignment, so the name is kept. */
  function AfterUpdateImg(img: string, filename: string, defaultImg: string, files: set<string>)
    : (string, set<string>, Option<PyError>)
  {
    if filename != img then
      var (files', raised) := AfterDeleteImg(img, defaultImg, files);
      if raised.Some? then (img, files', raised) else (filename, files', None)
    else (filename, files, None)
  }

  class Recipe {
    var imgFilename: string

    constructor (imgFilename: string)
      ensures this.imgFilename == imgFilename
    {
      this.imgFilename := imgFilename;
    }

    /** Recipe.delete_img */
    method DeleteImg(defaultImg: string, store: ImageStore) returns (raised: Option<PyError>)
      modifies store
      ensures (store.files, raised) == AfterDeleteImg(imgFilename, defaultImg, old(store.files))
    {
      raised := None;
      if imgFilename != defaultImg {
        if imgFilename in store.files {
          store.files := store.files - {imgFilename};
        } else {
          raised := Some(FileNotFoundError);
        }
      }
    }

    /** Recipe.update_img */
    method UpdateImg(filename: string, defaultImg: string, store: ImageStore) returns (raised: Option<PyError>)
      modifies this, store
      ensures (imgFilename, store.files, raised) == AfterUpdateImg(old(imgFilename), filename, defaultImg, old(store.files))
    {
      raised := None;
      if filename != imgFilename {
        raised := DeleteImg(defaultImg, store);
        if raised.Some? {
          return;
        }
      }
      imgFilename := filename;
    }
  }

  /** update_img ends with the new name unless removing the old file failed;
      it removes at most the old file, and only when the name changes and the
      old one is not the default; the new file is never removed. */
  lemma UpdateImgMeaning(img: string, filename: string, defaultImg: string, files: set<string>)
    ensures var (img', files', raised) := AfterUpdateImg(img, filename, defaultImg, files);
      && (raised.None? ==> img' == filename)
      && (raised.Some? <==> filename != img && img != defaultImg && img !in files)
      && (raised.Some? ==> raised == Some(FileNotFoundError) && img' == img && files' == files)
      && files' <= files
      && files - files' == (if filename != img && img != defaultImg && img in files then {img} else {})
      && (filename in files ==> filename in files')
  {
  }

  /** Setting the same image twice does no more than setting it once. */
  lemma UpdateImgIdempotent(img: string, filename: string, defaultImg: string, files: set<string>)
    requires AfterUpdateImg(img, filename, defaultImg, files).2.None?
    ensures var (img', files', _) := AfterUpdateImg(img, filename, defaultImg, files);
      AfterUpdateImg(img', filename, defaultImg, files') == (img', files', None)
  {
  }
}
