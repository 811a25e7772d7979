/** The duration pattern of app/main/fields.py:

      (?:W)?\s*(?:D)?\s*(?:H)?\s*(?:M)?\s*(?:S)?      matched with fullmatch

    where each of W, D, H, M, S is  (?P<name>[\d.]+)\s*<unit>  and the units
    come from a fixed, case-sensitive synonym set per slot.  Slots are numbered
    0 (weeks) to 4 (seconds).  A match is described declaratively by one Piece
    per slot: the whitespace matched by the \s* in front of the slot (there is
    none in front of the weeks slot) and the component, if the optional group
    took part.  FullMatch is a deterministic left-to-right tokenizer: Scan
    reads the components and the whitespace between them, Assign places them
    in their slots; FullMatchIff shows it accepts exactly the strings the
    pattern fullmatches and yields the same captured groups. */
module DurationGrammar {
  import opened Base

  /** ASCII characters only: \s is space, \t, \n, \v, \f, \r and \x1c..\x1f;
      [\d.] is a digit or a dot; everything else can only be part of a unit. */
  datatype CharClass = Space | Num | Word

  function ClassOf(c: char): CharClass {
    var k := c as int;
    if k == 32 || 9 <= k <= 13 || 28 <= k <= 31 then Space
    else if '0' <= c <= '9' || c == '.' then Num
    else Word
  }

  predicate AllOf(cls: CharClass, s: string) {
    forall i :: 0 <= i < |s| ==> ClassOf(s[i]) == cls
  }

  /** Length of the longest prefix of s whose characters are all of class cls. */
  function Span(cls: CharClass, s: string): (n: nat)
    ensures n <= |s|
  {
    if s != [] && ClassOf(s[0]) == cls then Span(cls, s[1..]) + 1 else 0
  }

  /** Span is the longest such prefix. */
  lemma {:induction false} SpanFacts(cls: CharClass, s: string)
    ensures AllOf(cls, s[..Span(cls, s)])
    ensures Span(cls, s) < |s| ==> ClassOf(s[Span(cls, s)]) != cls
  {
    if s != [] && ClassOf(s[0]) == cls {
      var m := Span(cls, s[1..]);
      SpanFacts(cls, s[1..]);
      assert s[..m + 1] == [s[0]] + s[1..][..m];
    }
  }

  lemma {:induction false} SpanOver(cls: CharClass, a: string, b: string)
    requires AllOf(cls, a)
    requires b == [] || ClassOf(b[0]) != cls
    ensures Span(cls, a + b) == |a|
  {
    if a != [] {
      assert (a + b)[1..] == a[1..] + b;
      SpanOver(cls, a[1..], b);
    }
  }

  /** The unit alternatives of the pattern with the slot each belongs to:
      (?:w|wks?|weeks?), (?:d|dys?|days?), (?:h|hrs?|hours?),
      (?:m|(mins?)|(minutes?)) and (?:s|secs?|seconds?), case-sensitive. */
  const UnitTable: seq<(string, nat)> := [
    ("w", 0), ("wk", 0), ("wks", 0), ("week", 0), ("weeks", 0),
    ("d", 1), ("dy", 1), ("dys", 1), ("day", 1), ("days", 1),
    ("h", 2), ("hr", 2), ("hrs", 2), ("hour", 2), ("hours", 2),
    ("m", 3), ("min", 3), ("mins", 3), ("minute", 3), ("minutes", 3),
    ("s", 4), ("sec", 4), ("secs", 4), ("second", 4), ("seconds", 4)
  ]

  /** The slot of the first entry of UnitTable from index i on that spells u. */
  function SlotFrom(u: string, i: nat): (r: Option<nat>)
    requires i <= |UnitTable|
    decreases |UnitTable| - i
  {
    if i == |UnitTable| then None
    else if Same(UnitTable[i].0, u) then Some(UnitTable[i].1)
    else SlotFrom(u, i + 1)
  }

  /** Character-by-character equality of two strings. */
  predicate Same(a: string, b: string) {
    if a == [] || b == [] then a == b else a[0] == b[0] && Same(a[1..], b[1..])
  }

  lemma {:induction false} SameIff(a: string, b: string)
    ensures Same(a, b) <==> a == b
  {
    if a != [] && b != [] {
      SameIff(a[1..], b[1..]);
      if a[0] == b[0] && a[1..] == b[1..] {
        assert a == [a[0]] + a[1..] && b == [b[0]] + b[1..];
      }
    }
  }

  /** The slot whose unit alternatives contain u, if any. */
  function UnitSlot(u: string): Option<nat> {
    SlotFrom(u, 0)
  }

  /** u is one of the unit alternatives of slot k. */
  predicate IsUnit(u: string, k: nat) {
    UnitSlot(u) == Some(k)
  }

  lemma {:induction false} SlotFromEntry(u: string, i: nat)
    requires i <= |UnitTable| && SlotFrom(u, i).Some?
    ensures exists e :: i <= e < |UnitTable| && UnitTable[e] == (u, SlotFrom(u, i).value)
    decreases |UnitTable| - i
  {
    SameIff(UnitTable[i].0, u);
    if UnitTable[i].0 != u {
      SlotFromEntry(u, i + 1);
    }
  }

  lemma TableWords()
    ensures forall e :: 0 <= e < |UnitTable| ==>
      UnitTable[e].0 != [] && AllOf(Word, UnitTable[e].0) && UnitTable[e].1 < 5
  {
  }

  /** Every unit is a non-empty word of one of the five slots. */
  lemma UnitFacts(u: string, k: nat)
    requires IsUnit(u, k)
    ensures u != [] && AllOf(Word, u) && k < 5
  {
    SlotFromEntry(u, 0);
    TableWords();
  }

  /** No word appears twice in the table. */
  lemma TableDistinct()
    ensures forall a, b :: 0 <= a < b < |UnitTable| ==> UnitTable[a].0 != UnitTable[b].0
  {
  }

  lemma {:induction false} SlotFromFinds(u: string, k: nat, i: nat, e: nat)
    requires i <= e < |UnitTable| && UnitTable[e] == (u, k)
    ensures SlotFrom(u, i) == Some(k)
    decreases e - i
  {
    SameIff(UnitTable[i].0, u);
    if i < e {
      TableDistinct();
      SlotFromFinds(u, k, i + 1, e);
    }
  }

  /** The lookup finds exactly the slots the table lists for a word. */
  lemma UnitSlotIff(u: string, k: nat)
    ensures IsUnit(u, k) <==> (u, k) in UnitTable
  {
    if IsUnit(u, k) {
      SlotFromEntry(u, 0);
    }
    if (u, k) in UnitTable {
      var e :| 0 <= e < |UnitTable| && UnitTable[e] == (u, k);
      SlotFromFinds(u, k, 0, e);
    }
  }

  /** Every word of the table is a unit of the slot it is listed with. */
  lemma ListedUnit(e: nat)
    requires e < |UnitTable|
    ensures IsUnit(UnitTable[e].0, UnitTable[e].1)
  {
    SlotFromFinds(UnitTable[e].0, UnitTable[e].1, 0, e);
  }

  /** <number> \s* <unit> as matched by one named group and its unit. */
  datatype Component = Component(number: string, gap: string, unit: string)

  /** The whitespace in front of a slot and what the slot matched. */
  datatype Piece = Piece(sep: string, comp: Option<Component>)

  function Text(c: Component): string {
    c.number + c.gap + c.unit
  }

  predicate ComponentOk(c: Component, k: nat)
    requires k < 5
  {
    c.number != [] && AllOf(Num, c.number) && AllOf(Space, c.gap) && IsUnit(c.unit, k)
  }

  /** ps describes a match of the slots k..4 of the pattern. */
  predicate Matches(ps: seq<Piece>, k: nat)
    requires k <= 5
  {
    && |ps| == 5 - k
    && (k == 0 ==> ps[0].sep == [])
    && forall i :: 0 <= i < |ps| ==>
         AllOf(Space, ps[i].sep) && (ps[i].comp.Some? ==> ComponentOk(ps[i].comp.value, k + i))
  }

  function PieceText(p: Piece): string {
    p.sep + if p.comp.Some? then Text(p.comp.value) else []
  }

  /** The text a match covers. */
  function Render(ps: seq<Piece>): string {
    if ps == [] then [] else PieceText(ps[0]) + Render(ps[1..])
  }

  function Group(p: Piece): Option<string> {
    if p.comp.Some? then Some(p.comp.value.number) else None
  }

  /** What groupdict() reports: the captured number of each slot, or None. */
  function Groups(ps: seq<Piece>): (g: seq<Option<string>>)
    ensures |g| == |ps|
  {
    if ps == [] then [] else [Group(ps[0])] + Groups(ps[1..])
  }

  /** n slots whose optional group did not take part. */
  function Absent(n: nat): (ps: seq<Piece>)
    ensures |ps| == n
  {
    if n == 0 then [] else [Piece([], None)] + Absent(n - 1)
  }

  lemma {:induction false} AbsentAt(n: nat, i: nat)
    requires i < n
    ensures Absent(n)[i] == Piece([], None)
  {
    if i > 0 {
      AbsentAt(n - 1, i - 1);
    }
  }

  /** The component at the front of t: the slot its unit belongs to, the
      component itself, and the text after it. */
  function Token(t: string): (r: Option<(nat, Component, string)>)
    ensures r.Some? ==> |r.value.2| < |t|
  {
    var n := Span(Num, t);
    var t1 := t[n..];
    var g := Span(Space, t1);
    var t2 := t1[g..];
    var u := Span(Word, t2);
    match UnitSlot(t2[..u])
    case None => None
    case Some(j) =>
      if n == 0 || j >= 5 then None else Some((j, Component(t[..n], t1[..g], t2[..u]), t2[u..]))
  }

  /** A token is a whole component of its slot. */
  lemma TokenSound(t: string)
    requires Token(t).Some?
    ensures var (j, c, rest) := Token(t).value; j < 5 && ComponentOk(c, j) && t == Text(c) + rest
  {
    var n := Span(Num, t);
    var t1 := t[n..];
    var g := Span(Space, t1);
    var t2 := t1[g..];
    var u := Span(Word, t2);
    SpanFacts(Num, t);
    SpanFacts(Space, t1);
    var r := Token(t).value;
    assert r.1 == Component(t[..n], t1[..g], t2[..u]) && r.2 == t2[u..];
    CutThree(t, n, g, u);
  }

  /** Cutting t after n, then g, then u more characters. */
  lemma CutThree(t: string, n: nat, g: nat, u: nat)
    requires n <= |t| && g <= |t| - n && u <= |t| - n - g
    ensures t == t[..n] + t[n..][..g] + t[n..][g..][..u] + t[n..][g..][u..]
  {
    var t1 := t[n..];
    var t2 := t1[g..];
    assert t2 == t2[..u] + t2[u..];
    assert t1 == t1[..g] + t2;
    assert t == t[..n] + t1;
  }

  /** A whole component is read back as one token. */
  lemma TokenOf(c: Component, j: nat, rest: string)
    requires j < 5 && ComponentOk(c, j)
    requires rest == [] || ClassOf(rest[0]) != Word
    ensures Token(Text(c) + rest) == Some((j, c, rest))
  {
    var t := Text(c) + rest;
    UnitFacts(c.unit, j);
    assert t == c.number + (c.gap + (c.unit + rest));
    SpanOver(Num, c.number, c.gap + (c.unit + rest));
    var t1 := t[|c.number|..];
    assert t1 == c.gap + (c.unit + rest);
    SpanOver(Space, c.gap, c.unit + rest);
    var t2 := t1[|c.gap|..];
    assert t2 == c.unit + rest;
    SpanOver(Word, c.unit, rest);
    assert t2[..|c.unit|] == c.unit && t2[|c.unit|..] == rest;
    assert t[..|c.number|] == c.number && t1[..|c.gap|] == c.gap;
  }

  /* ---------------------------------------------------------------------
     Scanning: the input as a sequence of components, each after optional
     whitespace, followed by trailing whitespace.
     --------------------------------------------------------------------- */

  /** A component found by the scanner: the whitespace in front of it, the
      slot its unit belongs to, and the component. */
  datatype Tok = Tok(ws: string, slot: nat, comp: Component)

  predicate TokOk(x: Tok) {
    x.slot < 5 && AllOf(Space, x.ws) && ComponentOk(x.comp, x.slot)
  }

  predicate AllTokOk(ts: seq<Tok>) {
    forall i :: 0 <= i < |ts| ==> TokOk(ts[i])
  }

  function TokText(ts: seq<Tok>): string {
    if ts == [] then [] else ts[0].ws + Text(ts[0].comp) + TokText(ts[1..])
  }

  /** Splits r into the components it is made of and the whitespace after
      the last one. */
  function Scan(r: string): Option<(seq<Tok>, string)>
    decreases |r|
  {
    var w := Span(Space, r);
    var t := r[w..];
    if t == [] then Some(([], r))
    else
      match Token(t)
      case None => None
      case Some((j, c, rest)) =>
        match Scan(rest)
        case None => None
        case Some((ts, end)) => Some(([Tok(r[..w], j, c)] + ts, end))
  }

  /** What the scanner does when r holds more than whitespace. */
  lemma ScanFound(r: string)
    requires Span(Space, r) < |r| && Scan(r).Some?
    ensures Token(r[Span(Space, r)..]).Some?
    ensures var (j, c, rest) := Token(r[Span(Space, r)..]).value;
      && Scan(rest).Some?
      && Scan(r).value == ([Tok(r[..Span(Space, r)], j, c)] + Scan(rest).value.0, Scan(rest).value.1)
  {
  }

  /** The scanner's step for a token that it reads. */
  lemma ScanStep(r: string, w: nat, j: nat, c: Component, rest: string)
    requires w == Span(Space, r) < |r| && Token(r[w..]) == Some((j, c, rest))
    ensures Scan(r) == match Scan(rest)
      case None => None
      case Some((ts, end)) => Some(([Tok(r[..w], j, c)] + ts, end))
  {
  }

  lemma TokTextCons(x: Tok, ts: seq<Tok>)
    ensures TokText([x] + ts) == x.ws + Text(x.comp) + TokText(ts)
  {
    assert ([x] + ts)[0] == x;
    assert ([x] + ts)[1..] == ts;
  }

  lemma AppendAssoc(a: string, b: string, c: string)
    ensures a + (b + c) == a + b + c
  {
  }

  /** Adding a well-formed component in front. */
  lemma TokCons(x: Tok, ts: seq<Tok>, end: string)
    requires TokOk(x) && AllTokOk(ts)
    ensures AllTokOk([x] + ts)
    ensures TokText([x] + ts) + end == x.ws + (Text(x.comp) + (TokText(ts) + end))
  {
    forall i | 0 <= i < |[x] + ts| ensures TokOk(([x] + ts)[i]) {
      if i > 0 {
        assert ([x] + ts)[i] == ts[i - 1];
      }
    }
    TokTextCons(x, ts);
    AppendAssoc(x.ws + Text(x.comp), TokText(ts), end);
    AppendAssoc(x.ws, Text(x.comp), TokText(ts) + end);
  }

  /** Taking the first component off. */
  lemma TokUncons(ts: seq<Tok>)
    requires AllTokOk(ts) && ts != []
    ensures TokOk(ts[0]) && AllTokOk(ts[1..]) && ts == [ts[0]] + ts[1..]
  {
    forall i | 0 <= i < |ts[1..]| ensures TokOk(ts[1..][i]) {
      assert ts[1..][i] == ts[i + 1];
    }
  }

  /** The scanner splits r into well-formed components that spell r. */
  lemma {:induction false} ScanSound(r: string)
    ensures Scan(r).Some? ==>
      var (ts, end) := Scan(r).value; AllTokOk(ts) && AllOf(Space, end) && TokText(ts) + end == r
    decreases |r|
  {
    if Scan(r).Some? {
      var w := Span(Space, r);
      if w == |r| {
        SpanFacts(Space, r);
        assert r[..w] == r;
      } else {
        ScanFound(r);
        var (j, c, rest) := Token(r[w..]).value;
        ScanSound(rest);
        ScanSoundStep(r, w, j, c, rest, Scan(rest).value.0, Scan(rest).value.1);
      }
    }
  }

  lemma ScanSoundStep(r: string, w: nat, j: nat, c: Component, rest: string, ts: seq<Tok>, end: string)
    requires w == Span(Space, r) < |r| && Token(r[w..]) == Some((j, c, rest))
    requires AllTokOk(ts) && TokText(ts) + end == rest
    ensures AllTokOk([Tok(r[..w], j, c)] + ts) && TokText([Tok(r[..w], j, c)] + ts) + end == r
  {
    var x := Tok(r[..w], j, c);
    SpanFacts(Space, r);
    TokenSound(r[w..]);
    assert r[w..] == Text(c) + rest;
    assert TokOk(x);
    TokCons(x, ts, end);
    assert r == r[..w] + r[w..];
  }

  /** What follows a component is never part of its unit. */
  lemma TokTextStart(ts: seq<Tok>, end: string)
    requires AllTokOk(ts) && AllOf(Space, end)
    ensures TokText(ts) + end == [] || ClassOf((TokText(ts) + end)[0]) != Word
  {
    if ts != [] {
      var x := ts[0];
      assert TokOk(x);
      if x.ws == [] {
        assert (TokText(ts) + end)[0] == x.comp.number[0];
      } else {
        assert (TokText(ts) + end)[0] == x.ws[0];
      }
    } else {
      assert TokText(ts) + end == end;
    }
  }

  /** A well-formed component in front of text that starts with no unit
      letter is what the scanner reads next. */
  lemma TokRead(x: Tok, rest: string)
    requires TokOk(x) && (rest == [] || ClassOf(rest[0]) != Word)
    ensures var r := x.ws + (Text(x.comp) + rest);
      Span(Space, r) == |x.ws| < |r| && r[..|x.ws|] == x.ws && Token(r[|x.ws|..]) == Some((x.slot, x.comp, rest))
  {
    var r := x.ws + (Text(x.comp) + rest);
    TokenOf(x.comp, x.slot, rest);
    assert Text(x.comp)[0] == x.comp.number[0];
    SpanOver(Space, x.ws, Text(x.comp) + rest);
    assert r[|x.ws|..] == Text(x.comp) + rest;
  }

  /** Well-formed components followed by whitespace are scanned back exactly. */
  lemma {:induction false} ScanComplete(ts: seq<Tok>, end: string)
    requires AllTokOk(ts) && AllOf(Space, end)
    ensures Scan(TokText(ts) + end) == Some((ts, end))
    decreases |ts|
  {
    if ts == [] {
      assert TokText(ts) + end == end + [];
      SpanOver(Space, end, []);
      assert end + [] == end;
    } else {
      var x := ts[0];
      var more := ts[1..];
      TokUncons(ts);
      TokCons(x, more, end);
      var rest := TokText(more) + end;
      ScanComplete(more, end);
      TokTextStart(more, end);
      TokRead(x, rest);
      ScanStep(TokText(ts) + end, |x.ws|, x.slot, x.comp, rest);
    }
  }

  /* ---------------------------------------------------------------------
     Assigning the scanned components to the slots of the pattern.
     --------------------------------------------------------------------- */

  /** The pieces for slots k..4 when slot j (k <= j) matched c after the
      whitespace ws, slots k..j-1 did not take part and tail covers the rest. */
  function Place(ws: string, c: Component, j: nat, k: nat, tail: seq<Piece>): seq<Piece>
    requires k <= j
  {
    Absent(j - k) + [Piece(ws, Some(c))] + tail
  }

  /** The pieces for slots k..4 of a match whose remaining components are ts
      and whose trailing whitespace is end: the components must come in slot
      order, and whitespace can sit in front of any slot but the weeks slot. */
  function Assign(ts: seq<Tok>, end: string, k: nat): Option<seq<Piece>>
    requires k <= 5
    decreases |ts|
  {
    if ts == [] then
      if end == [] then Some(Absent(5 - k))
      else if k == 0 then Some([Piece([], None), Piece(end, None)] + Absent(3))
      else if k < 5 then Some([Piece(end, None)] + Absent(4 - k))
      else None
    else
      var x := ts[0];
      if x.slot < k || x.slot >= 5 || (x.ws != [] && x.slot == 0) then None
      else
        match Assign(ts[1..], end, x.slot + 1)
        case None => None
        case Some(tail) => Some(Place(x.ws, x.comp, x.slot, k, tail))
  }

  /** re.fullmatch(TIME_FORMAT, s): the pieces of the match, or None. */
  function FullMatch(s: string): (r: Option<seq<Piece>>)
    ensures r.Some? ==> Matches(r.value, 0) && Render(r.value) == s
  {
    ScanSound(s);
    match Scan(s)
    case None => None
    case Some((ts, end)) =>
      AssignSound(ts, end, 0);
      Assign(ts, end, 0)
  }

  lemma {:induction false} RenderAppend(a: seq<Piece>, b: seq<Piece>)
    ensures Render(a + b) == Render(a) + Render(b)
  {
    if a == [] {
      assert a + b == b;
    } else {
      assert (a + b)[0] == a[0];
      assert (a + b)[1..] == a[1..] + b;
      RenderAppend(a[1..], b);
    }
  }

  lemma {:induction false} RenderAbsent(n: nat)
    ensures Render(Absent(n)) == []
  {
    if n > 0 {
      assert Absent(n)[1..] == Absent(n - 1);
      RenderAbsent(n - 1);
    }
  }

  lemma {:induction false} AllAbsentGroups(ps: seq<Piece>)
    requires forall i :: 0 <= i < |ps| ==> ps[i].comp.None?
    ensures Groups(ps) == Groups(Absent(|ps|))
  {
    if ps != [] {
      assert Absent(|ps|)[1..] == Absent(|ps| - 1);
      AllAbsentGroups(ps[1..]);
    }
  }

  /** The pieces built around a component of slot j found after the
      whitespace ws, when slots k..j-1 were skipped, form a match. */
  lemma PlaceMatches(ws: string, c: Component, j: nat, tail: seq<Piece>, k: nat)
    requires k <= j < 5 && AllOf(Space, ws) && ComponentOk(c, j) && Matches(tail, j + 1)
    requires k == 0 ==> (j > 0 || ws == [])
    ensures Matches(Place(ws, c, j, k, tail), k)
  {
    var ps := Place(ws, c, j, k, tail);
    forall i | 0 <= i < |ps|
      ensures AllOf(Space, ps[i].sep) && (ps[i].comp.Some? ==> ComponentOk(ps[i].comp.value, k + i))
    {
      if i < j - k {
        AbsentAt(j - k, i);
        assert ps[i] == Piece([], None);
      } else if i == j - k {
        assert ps[i] == Piece(ws, Some(c));
      } else {
        assert ps[i] == tail[i - (j - k) - 1];
      }
    }
    if k == 0 && j > 0 {
      AbsentAt(j, 0);
    }
  }

  lemma PlaceRender(ws: string, c: Component, j: nat, tail: seq<Piece>, k: nat)
    requires k <= j
    ensures Render(Place(ws, c, j, k, tail)) == ws + Text(c) + Render(tail)
  {
    var p := Piece(ws, Some(c));
    RenderAppend(Absent(j - k) + [p], tail);
    RenderAppend(Absent(j - k), [p]);
    RenderAbsent(j - k);
    assert Render([p]) == PieceText(p);
  }

  /** Place seen from its first slot. */
  lemma PlaceHead(ws: string, c: Component, j: nat, tail: seq<Piece>, k: nat)
    requires k <= j
    ensures k == j ==> Place(ws, c, j, k, tail)[0] == Piece(ws, Some(c)) && Place(ws, c, j, k, tail)[1..] == tail
    ensures k < j ==> Place(ws, c, j, k, tail)[0] == Piece([], None)
                      && Place(ws, c, j, k, tail)[1..] == Place(ws, c, j, k + 1, tail)
  {
    if k < j {
      assert Absent(j - k)[1..] == Absent(j - k - 1);
    }
  }

  /** Assign with no components left: trailing whitespace only. */
  lemma AssignSoundBlank(end: string, k: nat)
    requires k <= 5 && AllOf(Space, end) && Assign([], end, k).Some?
    ensures Matches(Assign([], end, k).value, k) && Render(Assign([], end, k).value) == end
  {
    if end == [] {
      BlankAbsent(k);
    } else if k == 0 {
      BlankFirst(end);
    } else {
      BlankLater(end, k);
    }
  }

  lemma BlankAbsent(k: nat)
    requires k <= 5
    ensures Matches(Absent(5 - k), k) && Render(Absent(5 - k)) == []
  {
    RenderAbsent(5 - k);
    var ps := Absent(5 - k);
    forall i | 0 <= i < |ps| ensures ps[i] == Piece([], None) {
      AbsentAt(5 - k, i);
    }
  }

  lemma BlankFirst(end: string)
    requires AllOf(Space, end)
    ensures var ps := [Piece([], None), Piece(end, None)] + Absent(3);
      Matches(ps, 0) && Render(ps) == end
  {
    var front := [Piece([], None), Piece(end, None)];
    var ps := front + Absent(3);
    RenderAppend(front, Absent(3));
    RenderAbsent(3);
    assert Render(front) == end by {
      assert front[1..] == [Piece(end, None)];
    }
    forall i | 2 <= i < 5 ensures ps[i] == Piece([], None) {
      AbsentAt(3, i - 2);
    }
  }

  lemma BlankLater(end: string, k: nat)
    requires 0 < k < 5 && AllOf(Space, end)
    ensures var ps := [Piece(end, None)] + Absent(4 - k);
      Matches(ps, k) && Render(ps) == end
  {
    var ps := [Piece(end, None)] + Absent(4 - k);
    RenderAppend([Piece(end, None)], Absent(4 - k));
    RenderAbsent(4 - k);
    forall i | 1 <= i < 5 - k ensures ps[i] == Piece([], None) {
      AbsentAt(4 - k, i - 1);
    }
  }

  /** Every assignment Assign finds is a match of the slots k..4 covering
      exactly the scanned text. */
  lemma {:induction false} AssignSound(ts: seq<Tok>, end: string, k: nat)
    requires k <= 5 && AllTokOk(ts) && AllOf(Space, end)
    ensures Assign(ts, end, k).Some? ==>
      Matches(Assign(ts, end, k).value, k) && Render(Assign(ts, end, k).value) == TokText(ts) + end
    decreases |ts|, 1
  {
    if Assign(ts, end, k).Some? {
      if ts == [] {
        AssignSoundBlank(end, k);
        assert TokText(ts) + end == end;
      } else {
        AssignSoundCons(ts, end, k);
      }
    }
  }

  /** The step of AssignSound for a first component. */
  lemma {:induction false} AssignSoundCons(ts: seq<Tok>, end: string, k: nat)
    requires k <= 5 && AllTokOk(ts) && AllOf(Space, end)
    requires ts != [] && Assign(ts, end, k).Some?
    ensures Matches(Assign(ts, end, k).value, k) && Render(Assign(ts, end, k).value) == TokText(ts) + end
    decreases |ts|, 0
  {
    var x := ts[0];
    TokUncons(ts);
    AssignFound(ts, end, k);
    AssignSound(ts[1..], end, x.slot + 1);
    AssignSoundStep(x, ts[1..], end, k, Assign(ts[1..], end, x.slot + 1).value);
  }

  /** What Assign does with a component it accepts. */
  lemma AssignFound(ts: seq<Tok>, end: string, k: nat)
    requires k <= 5 && ts != [] && Assign(ts, end, k).Some?
    ensures k <= ts[0].slot < 5 && (ts[0].ws != [] ==> ts[0].slot > 0)
    ensures Assign(ts[1..], end, ts[0].slot + 1).Some?
    ensures Assign(ts, end, k).value
         == Place(ts[0].ws, ts[0].comp, ts[0].slot, k, Assign(ts[1..], end, ts[0].slot + 1).value)
  {
  }

  lemma AssignSoundStep(x: Tok, more: seq<Tok>, end: string, k: nat, tail: seq<Piece>)
    requires TokOk(x) && AllTokOk(more) && k <= x.slot && (x.ws != [] ==> x.slot > 0)
    requires Matches(tail, x.slot + 1) && Render(tail) == TokText(more) + end
    ensures Matches(Place(x.ws, x.comp, x.slot, k, tail), k)
    ensures Render(Place(x.ws, x.comp, x.slot, k, tail)) == TokText([x] + more) + end
  {
    PlaceMatches(x.ws, x.comp, x.slot, tail, k);
    PlaceRender(x.ws, x.comp, x.slot, tail, k);
    TokCons(x, more, end);
    AppendAssoc(x.ws, Text(x.comp), TokText(more) + end);
  }

  /** With no components left no slot captures anything. */
  lemma BlankGroups(end: string, k: nat)
    requires k <= 5 && Assign([], end, k).Some?
    ensures Groups(Assign([], end, k).value) == Groups(Absent(5 - k))
  {
    var ps := Assign([], end, k).value;
    forall i | 0 <= i < |ps| ensures ps[i].comp.None? {
      if end == [] {
        AbsentAt(5 - k, i);
      } else if k == 0 {
        if i >= 2 {
          AbsentAt(3, i - 2);
        }
      } else if i >= 1 {
        AbsentAt(4 - k, i - 1);
      }
    }
    AllAbsentGroups(ps);
  }

  /** Leaving slot k out: Assign can always start one slot earlier. */
  lemma AssignSkip(ts: seq<Tok>, end: string, k: nat)
    requires k < 5 && Assign(ts, end, k + 1).Some?
    ensures Assign(ts, end, k).Some?
    ensures Groups(Assign(ts, end, k).value) == [None] + Groups(Assign(ts, end, k + 1).value)
  {
    if ts == [] {
      BlankGroups(end, k);
      BlankGroups(end, k + 1);
      assert Absent(5 - k)[1..] == Absent(4 - k);
    } else {
      var x := ts[0];
      var tail := Assign(ts[1..], end, x.slot + 1).value;
      PlaceHead(x.ws, x.comp, x.slot, tail, k);
      var a := Place(x.ws, x.comp, x.slot, k, tail);
      assert a == [a[0]] + a[1..];
    }
  }

  /** The components, and the whitespace after the last one, of a match ps
      of the slots k..4, where ws is whitespace an earlier \s* matched. */
  function Extract(ws: string, ps: seq<Piece>, k: nat): (seq<Tok>, string)
    decreases |ps|
  {
    if ps == [] then ([], ws)
    else if ps[0].comp.None? then Extract(ws + ps[0].sep, ps[1..], k + 1)
    else
      var more := Extract([], ps[1..], k + 1);
      ([Tok(ws + ps[0].sep, k, ps[0].comp.value)] + more.0, more.1)
  }

  lemma MatchesTail(ps: seq<Piece>, k: nat)
    requires k < 5 && Matches(ps, k)
    ensures Matches(ps[1..], k + 1)
  {
    var rest := ps[1..];
    forall i | 0 <= i < |rest|
      ensures AllOf(Space, rest[i].sep) && (rest[i].comp.Some? ==> ComponentOk(rest[i].comp.value, k + 1 + i))
    {
      assert rest[i] == ps[i + 1];
    }
  }

  /** The components of a match are well formed and spell the matched text. */
  lemma {:induction false} ExtractText(ws: string, ps: seq<Piece>, k: nat)
    requires k <= 5 && Matches(ps, k) && AllOf(Space, ws)
    ensures AllTokOk(Extract(ws, ps, k).0) && AllOf(Space, Extract(ws, ps, k).1)
    ensures TokText(Extract(ws, ps, k).0) + Extract(ws, ps, k).1 == ws + Render(ps)
    decreases |ps|
  {
    if ps == [] {
      assert ws + Render(ps) == ws;
    } else {
      var p := ps[0];
      MatchesTail(ps, k);
      assert AllOf(Space, p.sep);
      if p.comp.None? {
        ExtractText(ws + p.sep, ps[1..], k + 1);
        assert Render(ps) == p.sep + Render(ps[1..]);
        AppendAssoc(ws, p.sep, Render(ps[1..]));
      } else {
        ExtractText([], ps[1..], k + 1);
        var (more, end) := Extract([], ps[1..], k + 1);
        var x := Tok(ws + p.sep, k, p.comp.value);
        assert TokOk(x);
        TokTextCons(x, more);
        assert [] + Render(ps[1..]) == Render(ps[1..]);
        calc {
          ws + Render(ps);
          ws + (p.sep + Text(x.comp) + Render(ps[1..]));
          { AppendAssoc(ws, p.sep + Text(x.comp), Render(ps[1..]));
            AppendAssoc(ws, p.sep, Text(x.comp)); }
          x.ws + Text(x.comp) + Render(ps[1..]);
          x.ws + Text(x.comp) + (TokText(more) + end);
          { AppendAssoc(x.ws + Text(x.comp), TokText(more), end); }
          TokText([x] + more) + end;
        }
        forall i | 0 <= i < |[x] + more| ensures TokOk(([x] + more)[i]) {
          if i > 0 {
            assert ([x] + more)[i] == more[i - 1];
          }
        }
      }
    }
  }

  /** Every match of the pattern is found by Assign, with the same groups. */
  lemma {:induction false} AssignComplete(ws: string, ps: seq<Piece>, k: nat)
    requires k <= 5 && Matches(ps, k) && AllOf(Space, ws)
    requires (k == 0 || k == 5) ==> ws == []
    ensures Assign(Extract(ws, ps, k).0, Extract(ws, ps, k).1, k).Some?
    ensures Groups(Assign(Extract(ws, ps, k).0, Extract(ws, ps, k).1, k).value) == Groups(ps)
    decreases 5 - k, 1
  {
    if k < 5 {
      if ps[0].comp.None? {
        AssignCompleteSkip(ws, ps, k);
      } else {
        AssignCompleteTake(ws, ps, k);
      }
    }
  }

  /** The step of AssignComplete for a slot the match leaves out. */
  lemma {:induction false} AssignCompleteSkip(ws: string, ps: seq<Piece>, k: nat)
    requires k < 5 && Matches(ps, k) && AllOf(Space, ws)
    requires k == 0 ==> ws == []
    requires ps[0].comp.None?
    ensures Assign(Extract(ws, ps, k).0, Extract(ws, ps, k).1, k).Some?
    ensures Groups(Assign(Extract(ws, ps, k).0, Extract(ws, ps, k).1, k).value) == Groups(ps)
    decreases 5 - k, 0
  {
    var p := ps[0];
    var rest := ps[1..];
    MatchesTail(ps, k);
    assert Groups(ps) == [Group(p)] + Groups(rest);
    var ws' := ws + p.sep;
    if k == 4 {
      assert rest == [];
      assert Extract(ws, ps, k) == Extract(ws', rest, k + 1) == ([], ws');
      BlankGroups(ws', k);
      assert Absent(1)[1..] == [];
    } else {
      AssignComplete(ws', rest, k + 1);
      AssignSkip(Extract(ws', rest, k + 1).0, Extract(ws', rest, k + 1).1, k);
    }
  }

  /** The step of AssignComplete for a slot the match fills. */
  lemma {:induction false} AssignCompleteTake(ws: string, ps: seq<Piece>, k: nat)
    requires k < 5 && Matches(ps, k) && AllOf(Space, ws)
    requires k == 0 ==> ws == []
    requires ps[0].comp.Some?
    ensures Assign(Extract(ws, ps, k).0, Extract(ws, ps, k).1, k).Some?
    ensures Groups(Assign(Extract(ws, ps, k).0, Extract(ws, ps, k).1, k).value) == Groups(ps)
    decreases 5 - k, 0
  {
    var p := ps[0];
    var rest := ps[1..];
    MatchesTail(ps, k);
    AssignComplete([], rest, k + 1);
    var (more, end) := Extract([], rest, k + 1);
    var x := Tok(ws + p.sep, k, p.comp.value);
    assert Extract(ws, ps, k) == ([x] + more, end);
    var tail := Assign(more, end, k + 1).value;
    AssignHere(x, more, end, tail);
    PlaceHereGroups(x.ws, x.comp, k, tail);
    assert Groups(ps) == [Group(p)] + Groups(rest);
  }

  /** Assign puts a component of slot k, when k is its own slot, first. */
  lemma AssignHere(x: Tok, more: seq<Tok>, end: string, tail: seq<Piece>)
    requires x.slot < 5 && (x.ws != [] ==> x.slot > 0)
    requires Assign(more, end, x.slot + 1) == Some(tail)
    ensures Assign([x] + more, end, x.slot) == Some(Place(x.ws, x.comp, x.slot, x.slot, tail))
  {
    var ts := [x] + more;
    assert ts[0] == x && ts[1..] == more;
  }

  /** The groups of a match whose first slot is filled. */
  lemma PlaceHereGroups(ws: string, c: Component, k: nat, tail: seq<Piece>)
    ensures Groups(Place(ws, c, k, k, tail)) == [Some(c.number)] + Groups(tail)
  {
    PlaceHead(ws, c, k, tail, k);
    var a := Place(ws, c, k, k, tail);
    assert a == [a[0]] + a[1..];
  }

  /** fullmatch succeeds exactly on the strings the pattern describes, and
      then reports the groups of any match of it. */
  lemma FullMatchIff(s: string, ps: seq<Piece>)
    ensures FullMatch(s).Some? ==> Matches(FullMatch(s).value, 0) && Render(FullMatch(s).value) == s
    ensures Matches(ps, 0) && Render(ps) == s ==>
              FullMatch(s).Some? && Groups(FullMatch(s).value) == Groups(ps)
  {
    if Matches(ps, 0) && Render(ps) == s {
      ExtractText([], ps, 0);
      AssignComplete([], ps, 0);
      var (ts, end) := Extract([], ps, 0);
      assert [] + s == s;
      ScanComplete(ts, end);
    }
  }

  /** The groups of a match are fixed by the matched text alone. */
  lemma GroupsDetermined(ps1: seq<Piece>, ps2: seq<Piece>)
    requires Matches(ps1, 0) && Matches(ps2, 0) && Render(ps1) == Render(ps2)
    ensures Groups(ps1) == Groups(ps2)
  {
    FullMatchIff(Render(ps1), ps1);
    FullMatchIff(Render(ps1), ps2);
  }

  /** Well-formed components followed by whitespace are read as exactly
      those components; whether they fullmatch is then a matter of slot order. */
  lemma FullMatchToks(ts: seq<Tok>, end: string)
    requires AllTokOk(ts) && AllOf(Space, end)
    ensures FullMatch(TokText(ts) + end) == Assign(ts, end, 0)
  {
    ScanComplete(ts, end);
  }

  /** A string that fullmatches never starts with a unit letter (or any
      other character outside \s and [\d.]). */
  lemma FullMatchStart(s: string)
    requires FullMatch(s).Some?
    ensures s == [] || ClassOf(s[0]) != Word
  {
    ScanSound(s);
    var (ts, end) := Scan(s).value;
    TokTextStart(ts, end);
  }

  /** Text that starts with a word such as "banana" does not match. */
  lemma Unrecognised()
    ensures FullMatch("banana") == None
  {
    if FullMatch("banana").Some? {
      FullMatchStart("banana");
    }
  }

  /** The empty string and every whitespace-only string fullmatch, with no
      group taking part. */
  lemma BlankMatches(s: string)
    requires AllOf(Space, s)
    ensures FullMatch(s).Some? && Groups(FullMatch(s).value) == Groups(Absent(5))
  {
    ScanComplete([], s);
    assert TokText([]) + s == s;
    BlankGroups(s, 0);
  }

  /** The component <digits><unit> for the table entry e. */
  function Simple(digits: string, e: nat): Component
    requires e < |UnitTable|
  {
    Component(digits, [], UnitTable[e].0)
  }

  lemma SimpleOk(ws: string, digits: string, e: nat)
    requires e < |UnitTable| && digits != [] && AllOf(Num, digits) && AllOf(Space, ws)
    ensures TokOk(Tok(ws, UnitTable[e].1, Simple(digits, e)))
  {
    ListedUnit(e);
    UnitFacts(UnitTable[e].0, UnitTable[e].1);
  }

  /** "3h 2w": components out of order do not match. */
  lemma OutOfOrder()
    ensures FullMatch("3h 2w") == None
  {
    var ts := [Tok("", 2, Simple("3", 10)), Tok(" ", 0, Simple("2", 0))];
    SimpleOk("", "3", 10);
    SimpleOk(" ", "2", 0);
    assert AllTokOk(ts);
    TokTextCons(ts[0], ts[1..]);
    TokTextCons(ts[1], []);
    assert TokText(ts) + "" == "3h 2w";
    FullMatchToks(ts, "");
  }

  /** " 1w": there is no \s* in front of the weeks component. */
  lemma SpaceBeforeWeeks()
    ensures FullMatch(" 1w") == None
  {
    var ts := [Tok(" ", 0, Simple("1", 0))];
    SimpleOk(" ", "1", 0);
    assert AllTokOk(ts);
    TokTextCons(ts[0], []);
    assert TokText(ts) + "" == " 1w";
    FullMatchToks(ts, "");
  }

  /** "5s ": there is no \s* after the seconds component. */
  lemma SpaceAfterSeconds()
    ensures FullMatch("5s ") == None
  {
    var ts := [Tok("", 4, Simple("5", 20))];
    SimpleOk("", "5", 20);
    assert AllTokOk(ts);
    TokTextCons(ts[0], []);
    assert TokText(ts) + " " == "5s ";
    FullMatchToks(ts, " ");
  }

  /** "1h ": whitespace after any earlier component is taken by a later \s*. */
  lemma SpaceAfterHours()
    ensures FullMatch("1h ").Some?
  {
    var ts := [Tok("", 2, Simple("1", 10))];
    SimpleOk("", "1", 10);
    assert AllTokOk(ts);
    TokTextCons(ts[0], []);
    assert TokText(ts) + " " == "1h ";
    FullMatchToks(ts, " ");
    assert Assign(ts[1..], " ", 3).Some?;
  }

  /** Trailing whitespace after a match: a later \s* takes it when the
      seconds slot did not take part, and with seconds present nothing can. */
  lemma TrailingSpace(ps: seq<Piece>, ws: string)
    requires Matches(ps, 0) && AllOf(Space, ws)
    ensures ps[4].comp.None? ==>
              FullMatch(Render(ps) + ws).Some? && Groups(FullMatch(Render(ps) + ws).value) == Groups(ps)
    ensures ps[4].comp.Some? && ws != [] ==> FullMatch(Render(ps) + ws).None?
  {
    if ps[4].comp.None? {
      TrailingSpaceTaken(ps, ws, Render(ps) + ws);
    } else if ws != [] {
      TrailingSpaceRejected(ps, ws, Render(ps) + ws);
    }
  }

  /** The components of a match ending in seconds, followed by whitespace. */
  lemma TrailingSpaceRejected(ps: seq<Piece>, ws: string, s: string)
    requires Matches(ps, 0) && AllOf(Space, ws) && ps[4].comp.Some? && ws != []
    requires s == Render(ps) + ws
    ensures FullMatch(s) == None
  {
    var ts := LastComponent(ps);
    SecondsThenSpace(ts, ws, s);
  }

  /** The components of a match ending in seconds spell it exactly. */
  lemma LastComponent(ps: seq<Piece>) returns (ts: seq<Tok>)
    requires Matches(ps, 0) && ps[4].comp.Some?
    ensures AllTokOk(ts) && ts != [] && ts[|ts| - 1].slot == 4 && TokText(ts) == Render(ps)
  {
    var end;
    ts, end := Extract([], ps, 0).0, Extract([], ps, 0).1;
    ExtractText([], ps, 0);
    ExtractLast([], ps, 0);
    assert end == [];
    assert TokText(ts) + [] == TokText(ts);
    assert [] + Render(ps) == Render(ps);
  }

  /** Components ending in seconds do not fullmatch with whitespace after. */
  lemma SecondsThenSpace(ts: seq<Tok>, ws: string, s: string)
    requires AllTokOk(ts) && ts != [] && ts[|ts| - 1].slot == 4
    requires AllOf(Space, ws) && ws != [] && s == TokText(ts) + ws
    ensures FullMatch(s) == None
  {
    FullMatchToks(ts, ws);
    AssignAfterSeconds(ts, ws, 0);
  }

  /** The match ps with ws added to the separator of an empty seconds slot. */
  lemma TrailingSpaceTaken(ps: seq<Piece>, ws: string, s: string)
    requires Matches(ps, 0) && AllOf(Space, ws) && ps[4].comp.None? && s == Render(ps) + ws
    ensures FullMatch(s).Some? && Groups(FullMatch(s).value) == Groups(ps)
  {
    var ps' := ps[..4] + [Piece(ps[4].sep + ws, None)];
    WidenMatches(ps, ws);
    WidenRender(ps, ws);
    FullMatchIff(s, ps');
    GroupsSame(ps', ps);
  }

  /** Widening the last separator by whitespace keeps a match. */
  lemma WidenMatches(ps: seq<Piece>, ws: string)
    requires Matches(ps, 0) && AllOf(Space, ws) && ps[4].comp.None?
    ensures Matches(ps[..4] + [Piece(ps[4].sep + ws, None)], 0)
  {
    var ps' := ps[..4] + [Piece(ps[4].sep + ws, None)];
    AllOfAppend(Space, ps[4].sep, ws);
    forall i | 0 <= i < 5
      ensures AllOf(Space, ps'[i].sep) && (ps'[i].comp.Some? ==> ComponentOk(ps'[i].comp.value, i))
    {
      if i < 4 {
        assert ps'[i] == ps[i];
      }
    }
  }

  /** Two runs of one class make one run. */
  lemma AllOfAppend(cls: CharClass, a: string, b: string)
    requires AllOf(cls, a) && AllOf(cls, b)
    ensures AllOf(cls, a + b)
  {
    forall i | 0 <= i < |a + b| ensures ClassOf((a + b)[i]) == cls {
      if i >= |a| {
        assert (a + b)[i] == b[i - |a|];
      }
    }
  }

  /** ... and adds exactly that whitespace to the matched text. */
  lemma WidenRender(ps: seq<Piece>, ws: string)
    requires |ps| == 5 && ps[4].comp.None?
    ensures Render(ps[..4] + [Piece(ps[4].sep + ws, None)]) == Render(ps) + ws
  {
    var front := ps[..4];
    var last := Piece(ps[4].sep + ws, None);
    assert ps == front + [ps[4]];
    RenderOne(ps[4]);
    RenderOne(last);
    RenderAppend(front, [ps[4]]);
    RenderAppend(front, [last]);
    AppendAssoc(Render(front), ps[4].sep, ws);
  }

  lemma RenderOne(p: Piece)
    ensures Render([p]) == PieceText(p)
  {
    assert [p][1..] == [];
  }

  /** Groups looks at each slot on its own. */
  lemma {:induction false} GroupsSame(a: seq<Piece>, b: seq<Piece>)
    requires |a| == |b| && forall i :: 0 <= i < |a| ==> a[i].comp == b[i].comp
    ensures Groups(a) == Groups(b)
  {
    if a != [] {
      GroupsSame(a[1..], b[1..]);
    }
  }

  /** A match whose seconds slot took part ends with that component: the
      last component read from it has slot 4 and nothing follows it. */
  lemma {:induction false} ExtractLast(ws: string, ps: seq<Piece>, k: nat)
    requires k < 5 && |ps| == 5 - k && ps[|ps| - 1].comp.Some?
    ensures Extract(ws, ps, k).0 != [] && Extract(ws, ps, k).1 == []
    ensures Extract(ws, ps, k).0[|Extract(ws, ps, k).0| - 1].slot == 4
    decreases |ps|
  {
    var rest := ps[1..];
    if k == 4 {
      assert rest == [] && ps[0].comp.Some?;
      assert Extract([], rest, 5) == ([], []);
    } else {
      assert rest[|rest| - 1] == ps[|ps| - 1];
      if ps[0].comp.None? {
        ExtractLast(ws + ps[0].sep, rest, k + 1);
      } else {
        ExtractLast([], rest, k + 1);
      }
    }
  }

  /** After a seconds component Assign accepts no trailing whitespace. */
  lemma {:induction false} AssignAfterSeconds(ts: seq<Tok>, end: string, k: nat)
    requires k <= 5 && ts != [] && ts[|ts| - 1].slot == 4 && end != []
    ensures Assign(ts, end, k) == None
    decreases |ts|
  {
    var x := ts[0];
    if !(x.slot < k || x.slot >= 5 || (x.ws != [] && x.slot == 0)) {
      var more := ts[1..];
      if more == [] {
        assert x.slot == 4;
        assert Assign(more, end, 5) == None;
      } else {
        assert more[|more| - 1] == ts[|ts| - 1];
        AssignAfterSeconds(more, end, x.slot + 1);
      }
    }
  }
}
