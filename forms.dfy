/** The validation rules of app/main/forms.py, as predicates over the
    submitted data and an abstract table of user accounts. */
module Forms {
  import opened Base
  import opened DurationGrammar
  import opened Fields

  /* ---- Library validators as the forms use them ---- */

  /** Length(min, max): the length of the data, 0 for None, within bounds. */
  predicate LengthOk(data: Option<string>, min: nat, max: nat) {
    var l := if data.Some? then |data.value| else 0;
    min <= l <= max
  }

  /** Required(): fails on missing data and on data that strip() empties. */
  predicate RequiredOk(data: Option<string>) {
    data.Some? && data.value != [] && !AllOf(Space, data.value)
  }

  /* ---- The username pattern ^[A-Za-z][A-Za-z0-9_.]*$ ---- */

  predicate IsLetter(c: char) {
    'A' <= c <= 'Z' || 'a' <= c <= 'z'
  }

  predicate IsNameChar(c: char) {
    IsLetter(c) || '0' <= c <= '9' || c == '_' || c == '.'
  }

  /** The end of the greedy run [A-Za-z0-9_.]* that starts at i. */
  function NameRun(s: string, i: nat): (j: nat)
    requires i <= |s|
    ensures i <= j <= |s|
    ensures forall k :: i <= k < j ==> IsNameChar(s[k])
    ensures j < |s| ==> !IsNameChar(s[j])
    decreases |s| - i
  {
    if i == |s| || !IsNameChar(s[i]) then i else NameRun(s, i + 1)
  }

  /** re.match of the pattern on s: a letter, the run, then '$', which
      matches at the end of the text or just before a final newline. */
  predicate UsernamePattern(s: string) {
    s != [] && IsLetter(s[0]) &&
    var j := NameRun(s, 1);
    j == |s| || (j == |s| - 1 && s[j] == '\n')
  }

  /** A name: a letter followed by letters, digits, '_' and '.'. */
  predicate Name(t: string) {
    t != [] && IsLetter(t[0]) && forall k :: 1 <= k < |t| ==> IsNameChar(t[k])
  }

  /** The pattern accepts a name, and a name followed by one newline. */
  lemma UsernamePatternIff(s: string)
    ensures UsernamePattern(s) <==> Name(s) || (|s| >= 2 && s[|s| - 1] == '\n' && Name(s[..|s| - 1]))
  {
    if s != [] && IsLetter(s[0]) {
      var j := NameRun(s, 1);
      var t := s[..|s| - 1];
      assert forall k :: 0 <= k < |t| ==> t[k] == s[k];
    }
  }

  /** The checks of EditProfileAdminForm.username: Required(),
      Length(1, 64) and the pattern. */
  predicate UsernameValid(data: Option<string>) {
    RequiredOk(data) && LengthOk(data, 1, 64) && UsernamePattern(if data.Some? then data.value else [])
  }

  /** A username is accepted exactly when it has 1 to 64 characters and is
      a name, or a name of at most 63 characters followed by a newline;
      Required() adds nothing, as a name starts with a letter. */
  lemma UsernameValidIff(s: string)
    ensures UsernameValid(Some(s)) <==>
      1 <= |s| <= 64 && (Name(s) || (|s| >= 2 && s[|s| - 1] == '\n' && Name(s[..|s| - 1])))
  {
    UsernamePatternIff(s);
    if s != [] && IsLetter(s[0]) {
      assert ClassOf(s[0]) != Space;
    }
  }

  /** Two usernames the rules accept and four they refuse. */
  lemma UsernameExamples()
    ensures UsernameValid(Some("chef_1.a"))
    ensures UsernameValid(Some("chef\n"))
    ensures !UsernameValid(Some("1chef")) && !UsernameValid(Some("chef!")) && !UsernameValid(Some(""))
    ensures !UsernameValid(None)
  {
    UsernameValidIff("chef_1.a");
    UsernameValidIff("chef\n");
    assert "chef\n"[..4] == "chef";
    UsernameValidIff("chef!");
    assert !IsNameChar('!');
  }

  /** The pattern the rules evidently mean: $ only at the very end (\Z). */
  predicate StrictUsernameValid(data: Option<string>) {
    data.Some? && 1 <= |data.value| <= 64 && Name(data.value)
  }

  /** With the strict pattern no accepted username ends in a newline, and it
      differs from the written one only there. */
  lemma StrictUsername(s: string)
    ensures StrictUsernameValid(Some(s)) ==> UsernameValid(Some(s)) && s[|s| - 1] != '\n'
    ensures UsernameValid(Some(s)) && !StrictUsernameValid(Some(s)) ==>
      s[|s| - 1] == '\n' && StrictUsernameValid(Some(s[..|s| - 1]))
  {
    UsernameValidIff(s);
    if Name(s) && |s| > 1 {
      assert IsNameChar(s[|s| - 1]);
    }
  }

  /* ---- Length limits of the other fields ---- */

  /** EditProfileForm and EditProfileAdminForm: name and location are
      Length(0, 64). */
  predicate ProfileTextOk(data: Option<string>) {
    LengthOk(data, 0, 64)
  }

  /** RecipeForm.title: Required() and Length(1, 64). */
  predicate TitleValid(data: Option<string>) {
    RequiredOk(data) && LengthOk(data, 1, 64)
  }

  /** A title is accepted exactly when it has 1 to 64 characters, not all
      of them whitespace; profile texts just may not pass 64 characters. */
  lemma LengthRules(data: Option<string>)
    ensures TitleValid(data) <==> data.Some? && 1 <= |data.value| <= 64 && exists k :: 0 <= k < |data.value| && ClassOf(data.value[k]) != Space
    ensures ProfileTextOk(data) <==> data.None? || |data.value| <= 64
  {
  }

  /* ---- validate_email and validate_username ---- */

  /** A row of the users table as the validators see it. */
  datatype Account = Account(email: Option<string>, username: Option<string>)

  /** The check shared by validate_email and validate_username: refuse a
      changed value that some row already holds. */
  predicate Conflicts(submitted: string, current: Option<string>, column: seq<Option<string>>) {
    Some(submitted) != current && Some(submitted) in column
  }

  function Emails(users: seq<Account>): (r: seq<Option<string>>)
    ensures |r| == |users| && forall i :: 0 <= i < |users| ==> r[i] == users[i].email
  {
    if users == [] then [] else [users[0].email] + Emails(users[1..])
  }

  function Usernames(users: seq<Account>): (r: seq<Option<string>>)
    ensures |r| == |users| && forall i :: 0 <= i < |users| ==> r[i] == users[i].username
  {
    if users == [] then [] else [users[0].username] + Usernames(users[1..])
  }

  /** validate_email raises ValidationError */
  predicate EmailRejected(submitted: string, user: Account, users: seq<Account>) {
    Conflicts(submitted, user.email, Emails(users))
  }

  /** validate_username raises ValidationError */
  predicate UsernameRejected(submitted: string, user: Account, users: seq<Account>) {
    Conflicts(submitted, user.username, Usernames(users))
  }

  /** Each validator refuses exactly a changed value that another row holds;
      keeping one's own value always passes. */
  lemma UniquenessMeaning(submitted: string, user: Account, users: seq<Account>)
    ensures EmailRejected(submitted, user, users) <==>
      user.email != Some(submitted) && exists i :: 0 <= i < |users| && users[i].email == Some(submitted)
    ensures UsernameRejected(submitted, user, users) <==>
      user.username != Some(submitted) && exists i :: 0 <= i < |users| && users[i].username == Some(submitted)
    ensures user.email == Some(submitted) ==> !EmailRejected(submitted, user, users)
    ensures user.username == Some(submitted) ==> !UsernameRejected(submitted, user, users)
  {
    var es, us := Emails(users), Usernames(users);
    if Some(submitted) in es {
      var i :| 0 <= i < |es| && es[i] == Some(submitted);
      assert users[i].email == Some(submitted);
    }
    if Some(submitted) in us {
      var i :| 0 <= i < |us| && us[i] == Some(submitted);
      assert users[i].username == Some(submitted);
    }
  }

  /* ---- RecipeForm durations ---- */

  /** RecipeForm.prep_time and cook_time default to timedelta(). */
  const DurationDefault: TimeDelta := Zero

  /** validate_prep_time and validate_cook_time pass unless data is None. */
  predicate DurationDataOk(data: Option<TimeDelta>) {
    data.Some?
  }

  /** After a submission that raised nothing, the duration check fails
      exactly when the text did not match the pattern; in particular an
      empty box passes with timedelta(). */
  lemma DurationCheck(data: Option<TimeDelta>, text: string)
    requires AfterFormdata(data, [text]).1.None?
    ensures !DurationDataOk(AfterFormdata(data, [text]).0) <==> DurationValue(text) == NoMatch
    ensures AllOf(Space, text) ==> AfterFormdata(data, [text]).0 == Some(DurationDefault)
  {
    if AllOf(Space, text) {
      BlankIsZero(text);
    }
  }

  /* ---- EditProfileAdminForm role choices ---- */

  /** A role as (id, name). */
  type RoleChoice = (int, string)

  /** Whether a comes no later than b in character-code order. */
  predicate NameLe(a: string, b: string) {
    a == [] || (b != [] && (a[0] < b[0] || (a[0] == b[0] && NameLe(a[1..], b[1..]))))
  }

  lemma {:induction false} NameLeTotal(a: string, b: string)
    ensures NameLe(a, b) || NameLe(b, a)
  {
    if a != [] && b != [] && a[0] == b[0] {
      NameLeTotal(a[1..], b[1..]);
    }
  }

  lemma {:induction false} NameLeTrans(a: string, b: string, c: string)
    requires NameLe(a, b) && NameLe(b, c)
    ensures NameLe(a, c)
  {
    if a != [] && b != [] && c != [] && a[0] == b[0] && b[0] == c[0] {
      NameLeTrans(a[1..], b[1..], c[1..]);
    }
  }

  predicate SortedByName(rs: seq<RoleChoice>) {
    forall i, j :: 0 <= i < j < |rs| ==> NameLe(rs[i].1, rs[j].1)
  }

  /** Put r into the name-ordered rs. */
  function InsertByName(r: RoleChoice, rs: seq<RoleChoice>): (out: seq<RoleChoice>)
    ensures multiset(out) == multiset(rs) + multiset{r}
    ensures |out| == |rs| + 1
  {
    if rs == [] || NameLe(r.1, rs[0].1) then [r] + rs
    else
      assert rs == [rs[0]] + rs[1..];
      [rs[0]] + InsertByName(r, rs[1..])
  }

  /** [(role.id, role.name) for role in Role.query.order_by(Role.name).all()] */
  function RoleChoices(roles: seq<RoleChoice>): (out: seq<RoleChoice>)
    ensures |out| == |roles|
  {
    if roles == [] then [] else InsertByName(roles[0], RoleChoices(roles[1..]))
  }

  lemma {:induction false} InsertSorted(r: RoleChoice, rs: seq<RoleChoice>)
    requires SortedByName(rs)
    ensures SortedByName(InsertByName(r, rs))
    decreases |rs|
  {
    if rs != [] && !NameLe(r.1, rs[0].1) {
      NameLeTotal(r.1, rs[0].1);
      var tail := rs[1..];
      InsertSorted(r, tail);
      var rest := InsertByName(r, tail);
      var out := [rs[0]] + rest;
      forall k | 0 <= k < |rest| ensures NameLe(rs[0].1, rest[k].1) {
        assert rest[k] in multiset(tail) + multiset{r} by {
          assert rest[k] in multiset(rest);
        }
      }
      forall i, j | 0 <= i < j < |out| ensures NameLe(out[i].1, out[j].1) {
        if i > 0 {
          assert out[i] == rest[i - 1] && out[j] == rest[j - 1];
        } else {
          assert out[j] == rest[j - 1];
        }
      }
    } else if rs != [] {
      var out := [r] + rs;
      forall i, j | 0 <= i < j < |out| ensures NameLe(out[i].1, out[j].1) {
        if i > 0 {
          assert out[i] == rs[i - 1] && out[j] == rs[j - 1];
        } else if j > 1 {
          NameLeTrans(r.1, rs[0].1, rs[j - 1].1);
        }
      }
    }
  }

  /** The choices list every role exactly once, ordered by name. */
  lemma {:induction false} RoleChoicesSorted(roles: seq<RoleChoice>)
    ensures SortedByName(RoleChoices(roles))
    ensures multiset(RoleChoices(roles)) == multiset(roles)
  {
    if roles != [] {
      RoleChoicesSorted(roles[1..]);
      InsertSorted(roles[0], RoleChoices(roles[1..]));
      assert roles == [roles[0]] + roles[1..];
    }
  }
}
