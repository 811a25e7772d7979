/** The duration form field of app/main/fields.py: parse_duration, which turns
    text such as "1h 30m" into a timedelta through the pattern of
    DurationGrammar, and DurationField, whose _value formats the timedelta
    back as "{days}d {hours}h {minutes}m {seconds}s". */
module Fields {
  import opened Base
  import opened Decimal
  import opened DurationGrammar

  /** datetime.timedelta in CPython's normal form: whole days, then
      0 <= seconds < 86400 and 0 <= microseconds < 1000000. */
  datatype TimeDelta = TimeDelta(days: int, seconds: nat, microseconds: nat)

  /** timedelta.max.days; a larger magnitude raises OverflowError. */
  const MaxDays: nat := 999999999
  const SecondsPerDay: nat := 86400

  predicate Normalized(t: TimeDelta) {
    -(MaxDays as int) <= t.days <= MaxDays && t.seconds < SecondsPerDay && t.microseconds < 1000000
  }

  /** timedelta() */
  const Zero := TimeDelta(0, 0, 0)

  /** What a call of parse_duration does: return None, return a timedelta,
      or raise. */
  datatype ParseResult = NoMatch | Parsed(value: TimeDelta) | Raised(error: PyError)

  /** groupdict() keys, in the order of the pattern, and the seconds one
      unit of each stands for as a timedelta keyword argument. */
  const GroupNames: seq<string> := ["weeks", "days", "hours", "minutes", "seconds"]
  const UnitSeconds: seq<nat> := [604800, 86400, 3600, 60, 1]

  /** int(p): the value of a string of ASCII digits; None where int raises
      ValueError (a '.' in the capture, or nothing at all). */
  function IntOf(p: string): Option<nat> {
    if p != [] && AllDigits(p) then Some(ValueOf(p)) else None
  }

  /** time_params once the loop of parse_duration has visited the first n
      groups; None once int() has raised. */
  function Params(g: seq<Option<string>>, n: nat): Option<map<string, nat>>
    requires n <= |g| && n <= 5
  {
    if n == 0 then Some(map[])
    else
      match Params(g, n - 1)
      case None => None
      case Some(m) =>
        match g[n - 1]
        case None => Some(m)
        case Some(p) =>
          if p == [] then Some(m)
          else match IntOf(p)
            case None => None
            case Some(v) => Some(m[GroupNames[n - 1] := v])
  }

  /** The whole seconds the keyword arguments m of the first n slots add up to. */
  function ArgSeconds(m: map<string, nat>, n: nat): nat
    requires n <= 5
  {
    if n == 0 then 0
    else ArgSeconds(m, n - 1) + (if GroupNames[n - 1] in m then m[GroupNames[n - 1]] * UnitSeconds[n - 1] else 0)
  }

  /** timedelta(seconds=total) for a whole, non-negative total: the
      normalized value, or OverflowError past timedelta.max. */
  function FromSeconds(total: nat): (r: ParseResult)
    ensures r.Parsed? <==> total < (MaxDays + 1) * SecondsPerDay
    ensures r.Parsed? ==> Normalized(r.value) && r.value.microseconds == 0
                          && r.value.days * SecondsPerDay + r.value.seconds == total
    ensures !r.Parsed? ==> r == Raised(OverflowError)
  {
    if total / SecondsPerDay > MaxDays then Raised(OverflowError)
    else Parsed(TimeDelta(total / SecondsPerDay, total % SecondsPerDay, 0))
  }

  /** timedelta(**m) for whole, non-negative keyword arguments. */
  function MakeTimeDelta(m: map<string, nat>): ParseResult {
    FromSeconds(ArgSeconds(m, 5))
  }

  /** parse_duration(s) */
  function DurationValue(s: string): ParseResult {
    match FullMatch(s)
    case None => NoMatch
    case Some(ps) =>
      match Params(Groups(ps), 5)
      case None => Raised(ValueError)
      case Some(m) => MakeTimeDelta(m)
  }

  /** parse_duration: match, then fill time_params group by group. */
  method ParseDuration(s: string) returns (r: ParseResult)
    ensures r == DurationValue(s)
  {
    var parts := FullMatch(s);
    if parts.None? {
      return NoMatch;
    }
    var timeParams := FillParams(Groups(parts.value));
    if timeParams.None? {
      return Raised(ValueError);
    }
    r := MakeTimeDelta(timeParams.value);
  }

  /** The loop of parse_duration over the five groups; None where int()
      raises. */
  method FillParams(grouped: seq<Option<string>>) returns (r: Option<map<string, nat>>)
    requires |grouped| == 5
    ensures r == Params(grouped, 5)
  {
    var timeParams: map<string, nat> := map[];
    var i := 0;
    while i < 5
      invariant 0 <= i <= 5
      invariant Params(grouped, i) == Some(timeParams)
    {
      var param := grouped[i];
      if param.Some? && param.value != [] {
        var v := IntOf(param.value);
        if v.None? {
          ParamsStayNone(grouped, i + 1, 5);
          return None;
        }
        timeParams := timeParams[GroupNames[i] := v.value];
      }
      i := i + 1;
    }
    r := Some(timeParams);
  }

  /** Once int() has raised, the loop does not recover. */
  lemma {:induction false} ParamsStayNone(g: seq<Option<string>>, i: nat, n: nat)
    requires i <= n <= |g| && n <= 5 && Params(g, i).None?
    ensures Params(g, n).None?
    decreases n - i
  {
    if i < n {
      ParamsStayNone(g, i + 1, n);
    }
  }

  /* ---- The meaning of parse_duration, independent of how it is computed ---- */

  /** The value a captured group contributes: its number, or 0 when absent. */
  function GroupValue(g: Option<string>): nat {
    if g.Some? && g.value != [] && AllDigits(g.value) then ValueOf(g.value) else 0
  }

  /** weeks * 7 days + days + hours + minutes + seconds, in seconds. */
  function Total(g: seq<Option<string>>): nat
    requires |g| == 5
  {
    GroupValue(g[0]) * 604800 + GroupValue(g[1]) * 86400 + GroupValue(g[2]) * 3600
      + GroupValue(g[3]) * 60 + GroupValue(g[4])
  }

  /** Some captured number is not a plain run of digits. */
  predicate HasDecimal(g: seq<Option<string>>) {
    exists i :: 0 <= i < |g| && g[i].Some? && g[i].value != [] && !AllDigits(g[i].value)
  }

  /** The loop fails exactly when some group is not an integer, and otherwise
      collects the total of Total. */
  lemma {:induction false} ParamsMeaning(g: seq<Option<string>>, n: nat)
    requires |g| == 5 && n <= 5
    ensures Params(g, n).None? <==> HasDecimal(g[..n])
    ensures Params(g, n).Some? ==>
      ArgSeconds(Params(g, n).value, n) == PartialTotal(g, n)
      && (forall i :: n <= i < 5 ==> GroupNames[i] !in Params(g, n).value)
  {
    if n > 0 {
      ParamsMeaning(g, n - 1);
      assert g[..n] == g[..n - 1] + [g[n - 1]];
      if Params(g, n - 1).Some? {
        var m := Params(g, n - 1).value;
        assert forall i :: 0 <= i < 5 && i != n - 1 ==> GroupNames[i] != GroupNames[n - 1];
        if Params(g, n).Some? {
          var m' := Params(g, n).value;
          ArgSecondsFrame(m, m', n - 1);
        }
      }
    }
  }

  /** Total over the first n slots. */
  function PartialTotal(g: seq<Option<string>>, n: nat): nat
    requires |g| == 5 && n <= 5
  {
    if n == 0 then 0 else PartialTotal(g, n - 1) + GroupValue(g[n - 1]) * UnitSeconds[n - 1]
  }

  lemma PartialTotalAll(g: seq<Option<string>>)
    requires |g| == 5
    ensures PartialTotal(g, 5) == Total(g)
  {
    assert PartialTotal(g, 1) == GroupValue(g[0]) * 604800;
    assert PartialTotal(g, 3) == PartialTotal(g, 1) + GroupValue(g[1]) * 86400 + GroupValue(g[2]) * 3600;
    assert PartialTotal(g, 5) == PartialTotal(g, 3) + GroupValue(g[3]) * 60 + GroupValue(g[4]);
  }

  /** ArgSeconds over the first n slots reads only the keys of those slots. */
  lemma {:induction false} ArgSecondsFrame(m: map<string, nat>, m': map<string, nat>, n: nat)
    requires n <= 5
    requires forall i :: 0 <= i < n ==> (GroupNames[i] in m <==> GroupNames[i] in m')
    requires forall i :: 0 <= i < n && GroupNames[i] in m ==> m[GroupNames[i]] == m'[GroupNames[i]]
    ensures ArgSeconds(m, n) == ArgSeconds(m', n)
  {
    if n > 0 {
      ArgSecondsFrame(m, m', n - 1);
    }
  }

  /** parse_duration in terms of the pattern alone: None when nothing
      matches; otherwise the error of int() when a captured number holds a
      '.', or the timedelta of weeks*7 days + days + hours + minutes + seconds. */
  lemma DurationMeaning(s: string, ps: seq<Piece>)
    ensures DurationValue(s) == NoMatch <==> forall qs :: !(Matches(qs, 0) && Render(qs) == s)
    ensures Matches(ps, 0) && Render(ps) == s ==>
      DurationValue(s) == if HasDecimal(Groups(ps)) then Raised(ValueError) else FromSeconds(Total(Groups(ps)))
  {
    DurationNoMatch(s);
    if Matches(ps, 0) && Render(ps) == s {
      DurationOfMatch(s, ps);
    }
  }

  lemma DurationNoMatch(s: string)
    ensures DurationValue(s) == NoMatch <==> forall qs :: !(Matches(qs, 0) && Render(qs) == s)
  {
    if DurationValue(s) != NoMatch {
      var qs := FullMatch(s).value;
      RendersItself(qs, s);
    } else {
      forall qs | Matches(qs, 0) && Render(qs) == s ensures false {
        FullMatchIff(s, qs);
      }
    }
  }

  lemma DurationOfMatch(s: string, ps: seq<Piece>)
    requires Matches(ps, 0) && Render(ps) == s
    ensures DurationValue(s) == if HasDecimal(Groups(ps)) then Raised(ValueError) else FromSeconds(Total(Groups(ps)))
  {
    FullMatchIff(s, ps);
    var g := Groups(ps);
    ParamsMeaning(g, 5);
    assert g[..5] == g;
    PartialTotalAll(g);
  }

  lemma RendersItself(qs: seq<Piece>, s: string)
    requires FullMatch(s) == Some(qs)
    ensures Matches(qs, 0) && Render(qs) == s
  {
  }

  /** The empty string and all-whitespace strings parse to timedelta(). */
  lemma BlankIsZero(s: string)
    requires AllOf(Space, s)
    ensures DurationValue(s) == Parsed(Zero)
  {
    BlankMatches(s);
    var g := Groups(FullMatch(s).value);
    assert Absent(5)[1..] == Absent(4) && Absent(4)[1..] == Absent(3) && Absent(3)[1..] == Absent(2);
    assert Absent(2)[1..] == Absent(1) && Absent(1)[1..] == [];
    assert g == [None, None, None, None, None];
    ParamsMeaning(g, 5);
    assert g[..5] == g;
    PartialTotalAll(g);
  }

  /* ---- _value ---- */

  /** divmod(seconds, 3600) and then divmod(remainder, 60). */
  function Clock(seconds: nat): (hms: (nat, nat, nat))
    ensures hms.0 * 3600 + hms.1 * 60 + hms.2 == seconds
    ensures hms.1 < 60 && hms.2 < 60
    ensures seconds < SecondsPerDay ==> hms.0 < 24
  {
    var hours := seconds / 3600;
    var remainder := seconds % 3600;
    (hours, remainder / 60, remainder % 60)
  }

  /** u'{days}d {hours}h {minutes}m {seconds}s' for the days and whole
      seconds of t; weeks and microseconds are never shown. */
  function Format(t: TimeDelta): string {
    var (h, m, s) := Clock(t.seconds);
    IntStr(t.days) + "d " + NatStr(h) + "h " + NatStr(m) + "m " + NatStr(s) + "s"
  }

  lemma DigitsAreNum(s: string)
    requires AllDigits(s)
    ensures AllOf(Num, s)
  {
  }

  /** The one-letter units _value writes: "d", "h", "m" and "s". */
  lemma LetterUnits()
    ensures IsUnit("d", 1) && IsUnit("h", 2) && IsUnit("m", 3) && IsUnit("s", 4)
  {
    ListedUnit(5);
    ListedUnit(10);
    ListedUnit(15);
    ListedUnit(20);
  }

  /** The component <digits><unit> with no space between them. */
  function Plain(x: string, unit: string): Component {
    Component(x, [], unit)
  }

  lemma PlainOk(x: string, unit: string, k: nat)
    requires x != [] && AllDigits(x) && k < 5 && IsUnit(unit, k)
    ensures ComponentOk(Plain(x, unit), k)
  {
    DigitsAreNum(x);
  }

  /** The match _value's text makes from the digit strings x, y, z and w:
      no weeks, then days, hours, minutes and seconds separated by one space. */
  function FormatPieces(x: string, y: string, z: string, w: string): seq<Piece> {
    [Piece([], None)] + ([Piece([], Some(Plain(x, "d")))] + ([Piece(" ", Some(Plain(y, "h")))]
      + ([Piece(" ", Some(Plain(z, "m")))] + [Piece(" ", Some(Plain(w, "s")))])))
  }

  lemma RenderCons(p: Piece, ps: seq<Piece>)
    ensures Render([p] + ps) == PieceText(p) + Render(ps)
    ensures Groups([p] + ps) == [Group(p)] + Groups(ps)
  {
    assert ([p] + ps)[0] == p && ([p] + ps)[1..] == ps;
  }

  /** The text of one shown component: its separator, number and unit. */
  function Shown(sep: string, x: string, unit: string): string {
    sep + x + unit
  }

  lemma FormatText(x: string, y: string, z: string, w: string)
    ensures x + "d " + y + "h " + z + "m " + w + "s"
         == Shown([], x, "d") + (Shown(" ", y, "h") + (Shown(" ", z, "m") + Shown(" ", w, "s")))
  {
    assert "d " == "d" + " " && "h " == "h" + " " && "m " == "m" + " ";
    calc {
      x + "d " + y + "h " + z + "m " + w + "s";
      (x + "d") + (" " + y + "h") + (" " + z + "m") + (" " + w + "s");
      (x + "d") + ((" " + y + "h") + ((" " + z + "m") + (" " + w + "s")));
    }
  }

  lemma PlainText(sep: string, x: string, unit: string)
    ensures PieceText(Piece(sep, Some(Plain(x, unit)))) == Shown(sep, x, unit)
    ensures Group(Piece(sep, Some(Plain(x, unit)))) == Some(x)
  {
    assert Text(Plain(x, unit)) == x + unit;
  }

  lemma FormatMatches(x: string, y: string, z: string, w: string)
    requires x != [] && y != [] && z != [] && w != []
    requires AllDigits(x) && AllDigits(y) && AllDigits(z) && AllDigits(w)
    ensures Matches(FormatPieces(x, y, z, w), 0)
    ensures Render(FormatPieces(x, y, z, w)) == x + "d " + y + "h " + z + "m " + w + "s"
    ensures Groups(FormatPieces(x, y, z, w)) == [None, Some(x), Some(y), Some(z), Some(w)]
  {
    FormatPiecesMatch(x, y, z, w);
    FormatRender(x, y, z, w);
  }

  lemma FormatPiecesMatch(x: string, y: string, z: string, w: string)
    requires x != [] && y != [] && z != [] && w != []
    requires AllDigits(x) && AllDigits(y) && AllDigits(z) && AllDigits(w)
    ensures Matches(FormatPieces(x, y, z, w), 0)
  {
    LetterUnits();
    PlainOk(x, "d", 1);
    PlainOk(y, "h", 2);
    PlainOk(z, "m", 3);
    PlainOk(w, "s", 4);
    assert AllOf(Space, " ");
    var ps := FormatPieces(x, y, z, w);
    assert ps == [Piece([], None), Piece([], Some(Plain(x, "d"))), Piece(" ", Some(Plain(y, "h"))),
      Piece(" ", Some(Plain(z, "m"))), Piece(" ", Some(Plain(w, "s")))];
  }

  lemma FormatRender(x: string, y: string, z: string, w: string)
    ensures Render(FormatPieces(x, y, z, w)) == x + "d " + y + "h " + z + "m " + w + "s"
    ensures Groups(FormatPieces(x, y, z, w)) == [None, Some(x), Some(y), Some(z), Some(w)]
  {
    FormatRenderText(x, y, z, w);
    FormatRenderGroups(x, y, z, w);
  }

  lemma FormatRenderText(x: string, y: string, z: string, w: string)
    ensures Render(FormatPieces(x, y, z, w)) == x + "d " + y + "h " + z + "m " + w + "s"
  {
    var p0, p1, p2, p3, p4 := Piece([], None), Piece([], Some(Plain(x, "d"))), Piece(" ", Some(Plain(y, "h"))),
      Piece(" ", Some(Plain(z, "m"))), Piece(" ", Some(Plain(w, "s")));
    PlainText([], x, "d");
    PlainText(" ", y, "h");
    PlainText(" ", z, "m");
    PlainText(" ", w, "s");
    var t4 := Shown(" ", w, "s");
    var t3 := Shown(" ", z, "m") + t4;
    var t2 := Shown(" ", y, "h") + t3;
    var t1 := Shown([], x, "d") + t2;
    RenderCons(p4, []);
    assert Render([p4]) == t4;
    RenderCons(p3, [p4]);
    assert Render([p3] + [p4]) == t3;
    RenderCons(p2, [p3] + [p4]);
    assert Render([p2] + ([p3] + [p4])) == t2;
    RenderCons(p1, [p2] + ([p3] + [p4]));
    assert Render([p1] + ([p2] + ([p3] + [p4]))) == t1;
    RenderCons(p0, [p1] + ([p2] + ([p3] + [p4])));
    assert PieceText(p0) == [];
    FormatText(x, y, z, w);
  }

  lemma FormatRenderGroups(x: string, y: string, z: string, w: string)
    ensures Groups(FormatPieces(x, y, z, w)) == [None, Some(x), Some(y), Some(z), Some(w)]
  {
    var p0, p1, p2, p3, p4 := Piece([], None), Piece([], Some(Plain(x, "d"))), Piece(" ", Some(Plain(y, "h"))),
      Piece(" ", Some(Plain(z, "m"))), Piece(" ", Some(Plain(w, "s")));
    PlainText([], x, "d");
    PlainText(" ", y, "h");
    PlainText(" ", z, "m");
    PlainText(" ", w, "s");
    RenderCons(p4, []);
    RenderCons(p3, [p4]);
    RenderCons(p2, [p3] + [p4]);
    RenderCons(p1, [p2] + ([p3] + [p4]));
    RenderCons(p0, [p1] + ([p2] + ([p3] + [p4])));
  }

  /** The groups of the formatted text hold plain integers adding up to
      d days, h hours, m minutes and s seconds. */
  lemma FormatGroupsValue(d: nat, h: nat, m: nat, s: nat)
    ensures !HasDecimal([None, Some(NatStr(d)), Some(NatStr(h)), Some(NatStr(m)), Some(NatStr(s))])
    ensures Total([None, Some(NatStr(d)), Some(NatStr(h)), Some(NatStr(m)), Some(NatStr(s))])
         == d * 86400 + h * 3600 + m * 60 + s
  {
    NatGroup(d);
    NatGroup(h);
    NatGroup(m);
    NatGroup(s);
    DigitGroupsInt(NatStr(d), NatStr(h), NatStr(m), NatStr(s));
    WeightedTotal(NatStr(d), NatStr(h), NatStr(m), NatStr(s), d, h, m, s);
  }

  lemma NatGroup(n: nat)
    ensures GroupValue(Some(NatStr(n))) == n
  {
    ValueOfNatStr(n);
  }

  lemma DigitGroupsInt(d: string, h: string, m: string, s: string)
    requires AllDigits(d) && AllDigits(h) && AllDigits(m) && AllDigits(s)
    ensures !HasDecimal([None, Some(d), Some(h), Some(m), Some(s)])
  {
    IntegerGroups([None, Some(d), Some(h), Some(m), Some(s)]);
  }

  lemma WeightedTotal(ds: string, hs: string, ms: string, ss: string, d: nat, h: nat, m: nat, s: nat)
    requires GroupValue(Some(ds)) == d && GroupValue(Some(hs)) == h
    requires GroupValue(Some(ms)) == m && GroupValue(Some(ss)) == s
    ensures Total([None, Some(ds), Some(hs), Some(ms), Some(ss)]) == d * 86400 + h * 3600 + m * 60 + s
  {
    TotalOf(None, Some(ds), Some(hs), Some(ms), Some(ss));
  }

  lemma IntegerGroups(g: seq<Option<string>>)
    requires forall i :: 0 <= i < |g| && g[i].Some? ==> AllDigits(g[i].value)
    ensures !HasDecimal(g)
  {
  }

  lemma TotalOf(w: Option<string>, d: Option<string>, h: Option<string>, m: Option<string>, s: Option<string>)
    ensures Total([w, d, h, m, s])
         == GroupValue(w) * 604800 + GroupValue(d) * 86400 + GroupValue(h) * 3600 + GroupValue(m) * 60 + GroupValue(s)
  {
    var g := [w, d, h, m, s];
    assert g[0] == w && g[1] == d && g[2] == h && g[3] == m && g[4] == s;
  }

  /** timedelta(seconds=d*86400 + sec) is d days and sec seconds. */
  lemma FromDaySeconds(d: nat, sec: nat)
    requires d <= MaxDays && sec < SecondsPerDay
    ensures FromSeconds(d * SecondsPerDay + sec) == Parsed(TimeDelta(d, sec, 0))
  {
    var r := FromSeconds(d * SecondsPerDay + sec);
    assert r.Parsed?;
  }

  /** Round trip: text produced by _value parses back to the timedelta it
      came from, less its microseconds, whenever its day count is not negative. */
  lemma FormatParses(t: TimeDelta)
    requires Normalized(t) && t.days >= 0
    ensures DurationValue(Format(t)) == Parsed(TimeDelta(t.days, t.seconds, 0))
  {
    var (h, m, s) := Clock(t.seconds);
    var d := t.days as nat;
    var x, y, z, w := NatStr(d), NatStr(h), NatStr(m), NatStr(s);
    var ps := FormatPieces(x, y, z, w);
    FormatIsRender(t);
    FormatMatches(x, y, z, w);
    FormatGroupsValue(d, h, m, s);
    ParsesTo(Format(t), ps, d, t.seconds);
  }

  lemma FormatIsRender(t: TimeDelta)
    requires t.days >= 0
    ensures var (h, m, s) := Clock(t.seconds);
      Format(t) == NatStr(t.days) + "d " + NatStr(h) + "h " + NatStr(m) + "m " + NatStr(s) + "s"
  {
  }

  /** A match whose groups are integers adding up to d days and sec seconds. */
  lemma ParsesTo(text: string, ps: seq<Piece>, d: nat, sec: nat)
    requires Matches(ps, 0) && Render(ps) == text
    requires !HasDecimal(Groups(ps)) && Total(Groups(ps)) == d * 86400 + sec
    requires d <= MaxDays && sec < SecondsPerDay
    ensures DurationValue(text) == Parsed(TimeDelta(d, sec, 0))
  {
    DurationOfMatch(text, ps);
    FromDaySeconds(d, sec);
  }

  /** A negative timedelta is shown as "-Nd ...", which does not parse. */
  lemma NegativeFormatFails(t: TimeDelta)
    requires t.days < 0
    ensures DurationValue(Format(t)) == NoMatch
  {
    var s := Format(t);
    assert s[0] == '-';
    if FullMatch(s).Some? {
      FullMatchStart(s);
    }
  }

  /* ---- Examples ---- */

  /** Render and Groups of a five-slot match, one piece at a time. */
  lemma FiveSlots(a: Piece, b: Piece, c: Piece, d: Piece, e: Piece)
    ensures Render([a, b, c, d, e]) == PieceText(a) + (PieceText(b) + (PieceText(c) + (PieceText(d) + PieceText(e))))
    ensures Groups([a, b, c, d, e]) == [Group(a), Group(b), Group(c), Group(d), Group(e)]
  {
    assert [a, b, c, d, e] == [a] + ([b] + ([c] + ([d] + [e])));
    RenderCons(e, []);
    RenderCons(d, [e]);
    RenderCons(c, [d] + [e]);
    RenderCons(b, [c] + ([d] + [e]));
    RenderCons(a, [b] + ([c] + ([d] + [e])));
  }

  /** "1h 30m" is an hour and a half. */
  lemma NinetyMinutes()
    ensures DurationValue("1h 30m") == Parsed(TimeDelta(0, 5400, 0))
  {
    var ps := NinetyMinutesMatch();
    assert ValueOf("30") == 30;
    IntegerGroups([None, None, Some("1"), Some("30"), None]);
    TotalOf(None, None, Some("1"), Some("30"), None);
    ParsesTo("1h 30m", ps, 0, 5400);
  }

  lemma NinetyMinutesMatch() returns (ps: seq<Piece>)
    ensures Matches(ps, 0) && Render(ps) == "1h 30m"
    ensures Groups(ps) == [None, None, Some("1"), Some("30"), None]
  {
    var hours, minutes := Component("1", [], "h"), Component("30", [], "m");
    ps := [Piece([], None), Piece([], None), Piece([], Some(hours)), Piece(" ", Some(minutes)), Piece([], None)];
    FiveSlots(ps[0], ps[1], ps[2], ps[3], ps[4]);
    SlotsOk(ps);
  }

  /** The example match satisfies the pattern slot by slot. */
  lemma SlotsOk(ps: seq<Piece>)
    requires ps == [Piece([], None), Piece([], None), Piece([], Some(Component("1", [], "h"))),
                    Piece(" ", Some(Component("30", [], "m"))), Piece([], None)]
    ensures Matches(ps, 0)
  {
    LetterUnits();
    assert AllOf(Space, " ");
    assert ComponentOk(ps[2].comp.value, 2) && ComponentOk(ps[3].comp.value, 3);
  }

  /** "1.5h" matches the pattern, but int("1.5") raises ValueError. */
  lemma FractionRaises()
    ensures DurationValue("1.5h") == Raised(ValueError)
  {
    var ps := [Piece([], None), Piece([], None), Piece([], Some(Component("1.5", [], "h"))), Piece([], None), Piece([], None)];
    FiveSlots(ps[0], ps[1], ps[2], ps[3], ps[4]);
    FractionSlotsOk(ps);
    var g := Groups(ps);
    assert g[2] == Some("1.5") && !AllDigits("1.5");
    DurationOfMatch("1.5h", ps);
  }

  lemma FractionSlotsOk(ps: seq<Piece>)
    requires ps == [Piece([], None), Piece([], None), Piece([], Some(Component("1.5", [], "h"))),
                    Piece([], None), Piece([], None)]
    ensures Matches(ps, 0)
  {
    LetterUnits();
    assert ComponentOk(ps[2].comp.value, 2);
  }

  /* ---- DurationField ---- */

  /** The data and the exception process_formdata leaves: int() and
      timedelta() raise before data is assigned, so an error keeps the old
      data; an unmatched text sets it to None. */
  function AfterFormdata(data: Option<TimeDelta>, duration: seq<string>): (r: (Option<TimeDelta>, Option<PyError>))
  {
    if duration == [] then (data, Some(IndexError))
    else
      match DurationValue(duration[0])
      case NoMatch => (None, None)
      case Parsed(t) => (Some(t), None)
      case Raised(e) => (data, Some(e))
  }

  /** The form field: data holds the timedelta, or None. */
  class DurationField {
    var data: Option<TimeDelta>

    /** data is None or a timedelta in its normal form, as every Python
        timedelta is. */
    predicate Valid()
      reads this
    {
      data.None? || Normalized(data.value)
    }

    constructor (initial: Option<TimeDelta>)
      requires initial.None? || Normalized(initial.value)
      ensures data == initial
      ensures Valid()
    {
      data := initial;
    }

    /** _value: the text shown in the input, defaulting data to timedelta(). */
    method Value() returns (text: string)
      requires Valid()
      modifies this
      ensures Valid()
      ensures data == Some(if old(data).None? then Zero else old(data).value)
      ensures text == Format(data.value)
    {
      if data.None? {
        data := Some(Zero);
      }
      var days := data.value.days;
      var hours, remainder := data.value.seconds / 3600, data.value.seconds % 3600;
      var minutes, seconds := remainder / 60, remainder % 60;
      text := IntStr(days) + "d " + NatStr(hours) + "h " + NatStr(minutes) + "m " + NatStr(seconds) + "s";
    }

    /** process_formdata: parse the first submitted value. */
    method ProcessFormdata(duration: seq<string>) returns (raised: Option<PyError>)
      requires Valid()
      modifies this
      ensures Valid()
      ensures (data, raised) == AfterFormdata(old(data), duration)
    {
      FormdataKeeps(data, duration);
      if |duration| == 0 {
        return Some(IndexError);
      }
      var r := ParseDuration(duration[0]);
      match r
      case NoMatch =>
        data := None;
        raised := None;
      case Parsed(t) =>
        data := Some(t);
        raised := None;
      case Raised(e) =>
        raised := Some(e);
    }
  }

  /** Every timedelta parse_duration returns is normalized, not negative
      and has no microseconds. */
  lemma DurationValueNormal(s: string)
    ensures DurationValue(s).Parsed? ==>
      var t := DurationValue(s).value;
      Normalized(t) && t.days >= 0 && t.microseconds == 0
  {
  }

  /** Whatever process_formdata stores is such a timedelta, and an
      exception leaves the data as it was. */
  lemma FormdataKeeps(data: Option<TimeDelta>, duration: seq<string>)
    ensures AfterFormdata(data, duration).1.Some? ==> AfterFormdata(data, duration).0 == data
    ensures AfterFormdata(data, duration).1.None? && AfterFormdata(data, duration).0.Some? ==>
      var t := AfterFormdata(data, duration).0.value;
      Normalized(t) && t.days >= 0 && t.microseconds == 0
  {
    if duration != [] {
      DurationValueNormal(duration[0]);
    }
  }

  /** Submitting back the text _value shows restores the data exactly when
      it is a whole number of seconds and not negative; a negative duration
      is cleared to None. */
  lemma FormdataRoundTrip(data: Option<TimeDelta>, t: TimeDelta)
    requires Normalized(t)
    ensures t.days >= 0 && t.microseconds == 0 ==> AfterFormdata(data, [Format(t)]) == (Some(t), None)
    ensures t.days < 0 ==> AfterFormdata(data, [Format(t)]) == (None, None)
  {
    if t.days >= 0 {
      FormatParses(t);
    } else {
      NegativeFormatFails(t);
    }
  }

  /** An empty input gives timedelta(), which _value shows as "0d 0h 0m 0s". */
  lemma FormdataBlank(data: Option<TimeDelta>)
    ensures AfterFormdata(data, [""]) == (Some(Zero), None)
    ensures Format(Zero) == "0d 0h 0m 0s"
  {
    BlankIsZero("");
    FormatZero();
  }

  lemma FormatZero()
    ensures Format(Zero) == "0d 0h 0m 0s"
  {
    assert Clock(0) == (0, 0, 0);
    assert IntStr(0) == NatStr(0) == "0";
  }
}
