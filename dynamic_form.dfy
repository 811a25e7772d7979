/** The string and list rules of app/static/dynamicForm.js: renumbering the
    ids and names of a cloned form row, resetting its values, and removing
    a row without ever emptying the list. The DOM is a list of rows, each
    row the sequence of its elements in document order, the row element
    itself first. */
module DynamicForm {
  import opened Base
  import opened Decimal

  /* ---- increment ---- */

  /** k > 0 when s starts with '-', k ASCII digits and another '-'. The
      digit run is taken whole: a shorter run would be followed by a digit,
      not by the closing '-'. */
  function MarkerLen(s: string): (k: nat)
    ensures k > 0 ==> k + 2 <= |s| && s[0] == '-' && s[k + 1] == '-' && AllDigits(s[1..k + 1])
    ensures k > 0 ==> k == DigitRun(s[1..])
  {
    if |s| >= 3 && s[0] == '-' then
      var n := DigitRun(s[1..]);
      if n >= 1 && n + 1 < |s| && s[n + 1] == '-' then
        assert s[1..n + 1] == s[1..][..n];
        n
      else 0
    else 0
  }

  /** string.replace(/-(\d+)-/g, ...): scanning left to right, each match
      becomes '-' + (parseInt(digits) + 1) + '-' and scanning resumes after
      its closing '-'; every other character is copied. */
  function Increment(s: string): string
    decreases |s|
  {
    if s == [] then []
    else
      var k := MarkerLen(s);
      if k > 0 then "-" + NatStr(ValueOf(s[1..k + 1]) + 1) + "-" + Increment(s[k + 2..])
      else [s[0]] + Increment(s[1..])
  }

  /** s[i..j+1] reads '-', one or more ASCII digits, '-'. */
  predicate Marker(s: string, i: int, j: int) {
    0 <= i && i + 1 < j < |s| && s[i] == '-' && s[j] == '-' &&
    forall k :: i < k < j ==> IsDigit(s[k])
  }

  predicate NoMarker(s: string) {
    forall i, j | 0 <= i < j < |s| :: !Marker(s, i, j)
  }

  /** A marker at the very start is what MarkerLen finds. */
  lemma MarkerAtStart(s: string, j: int)
    requires Marker(s, 0, j)
    ensures MarkerLen(s) == j - 1
  {
    var n := DigitRun(s[1..]);
    assert forall k :: 0 <= k < j - 1 ==> s[1..][k] == s[k + 1];
  }

  /** A string is returned unchanged exactly when it holds no -<digits>-. */
  lemma {:induction false} IncrementUnchangedIff(s: string)
    ensures Increment(s) == s <==> NoMarker(s)
    decreases |s|
  {
    if s == [] {
      return;
    }
    var k := MarkerLen(s);
    if k > 0 {
      assert Marker(s, 0, k + 1);
      MarkerChanges(s);
    } else {
      var t := s[1..];
      IncrementUnchangedIff(t);
      forall i, j | Marker(s, i, j)
        ensures Marker(t, i - 1, j - 1)
      {
        if i == 0 {
          MarkerAtStart(s, j);
        }
      }
      forall i, j | Marker(t, i, j)
        ensures Marker(s, i + 1, j + 1)
      {
      }
    }
  }

  /** A marker at the start is always rewritten to something else: the new
      digits denote a larger number than the old ones. */
  lemma MarkerChanges(s: string)
    requires MarkerLen(s) > 0
    ensures Increment(s) != s
  {
    var k := MarkerLen(s);
    var d := s[1..k + 1];
    var n := NatStr(ValueOf(d) + 1);
    var out := Increment(s);
    var tail := "-" + Increment(s[k + 2..]);
    assert out == "-" + (n + tail);
    if out == s {
      assert out[1..] == n + tail == n + "-" + Increment(s[k + 2..]);
      DigitRunStops(n, Increment(s[k + 2..]));
      assert DigitRun(out[1..]) == |n|;
      assert DigitRun(s[1..]) == k;
      assert out[1..k + 1] == n;
      ValueOfNatStr(ValueOf(d) + 1);
    }
  }

  /** A digit run ends at the '-' after it. */
  lemma {:induction false} DigitRunStops(n: string, rest: string)
    requires AllDigits(n)
    ensures DigitRun(n + "-" + rest) == |n|
  {
    var t := n + "-" + rest;
    if n == [] {
      assert t[0] == '-';
    } else {
      assert t[1..] == n[1..] + "-" + rest;
      DigitRunStops(n[1..], rest);
    }
  }

  /** Text without a '-' is copied as is. */
  lemma {:induction false} IncrementLiteral(a: string, b: string)
    requires '-' !in a
    ensures Increment(a + b) == a + Increment(b)
    decreases |a|
  {
    if a != [] {
      var s := a + b;
      assert s[0] == a[0] && a[0] != '-';
      assert s[1..] == a[1..] + b;
      assert MarkerLen(s) == 0;
      assert Increment(s) == [s[0]] + Increment(s[1..]);
      IncrementLiteral(a[1..], b);
      assert a == [a[0]] + a[1..];
    } else {
      assert a + b == b;
    }
  }

  /** A marker is rewritten with the next number, leading zeros dropped,
      and the scan goes on after its closing '-'. */
  lemma IncrementMarker(d: string, rest: string)
    requires |d| >= 1 && AllDigits(d)
    ensures Increment("-" + d + "-" + rest) == "-" + NatStr(ValueOf(d) + 1) + "-" + Increment(rest)
  {
    var s := "-" + d + "-" + rest;
    assert Marker(s, 0, |d| + 1);
    MarkerAtStart(s, |d| + 1);
    assert s[1..|d| + 1] == d;
    assert s[|d| + 2..] == rest;
  }

  /** Text with no '-' is returned unchanged. */
  lemma IncrementPlain(a: string)
    requires '-' !in a
    ensures Increment(a) == a
  {
    IncrementLiteral(a, "");
    assert a + "" == a;
  }

  /** A row id field-N-rest, as the form names its entries
      (ingredients-0-amount), becomes field-(N+1)-rest. */
  lemma IncrementRowId(field: string, d: string, rest: string)
    requires '-' !in field && '-' !in rest && |d| >= 1 && AllDigits(d)
    ensures Increment(field + ("-" + d + "-" + rest)) == field + ("-" + NatStr(ValueOf(d) + 1) + "-" + rest)
  {
    IncrementLiteral(field, "-" + d + "-" + rest);
    IncrementMarker(d, rest);
    IncrementPlain(rest);
  }

  /** A '-' shared by two numbers is consumed by the first match, so the
      second number is left as it is: a-1-2- becomes a-2-2-. */
  lemma IncrementSharedDash(d1: string, d2: string)
    requires |d1| >= 1 && AllDigits(d1) && |d2| >= 1 && AllDigits(d2)
    ensures Increment("-" + d1 + "-" + d2 + "-") == "-" + NatStr(ValueOf(d1) + 1) + "-" + d2 + "-"
  {
    assert "-" + d1 + "-" + d2 + "-" == "-" + d1 + "-" + (d2 + "-");
    IncrementMarker(d1, d2 + "-");
    IncrementLiteral(d2, "-");
    assert MarkerLen("-") == 0;
    assert Increment("-") == "-" + Increment("");
  }

  /** parseInt drops leading zeros: -0N- is renumbered as -N- is. */
  lemma IncrementLeadingZero(d: string, rest: string)
    requires |d| >= 1 && AllDigits(d)
    ensures Increment("-" + ("0" + d) + "-" + rest) == Increment("-" + d + "-" + rest)
  {
    var z := "0" + d;
    ValueOfLeadingZero(d);
    var after := "-" + NatStr(ValueOf(d) + 1) + "-" + Increment(rest);
    IncrementMarker(z, rest);
    assert Increment("-" + z + "-" + rest) == after;
    IncrementMarker(d, rest);
  }

  /* ---- the add-field handler ---- */

  datatype Tag = Input | Select | Textarea | OtherTag

  /** One DOM element of a row: its tag, the type attribute of an input, id,
      name, value, the selected attribute of each child option, and whether
      it carries the class dynamic-field. */
  datatype Element = Element(tag: Tag, kind: string, id: string, name: string, value: string,
                             selected: seq<bool>, dynamic: bool)

  /** The body of the .each callback for one element of the clone. */
  function Renumbered(e: Element): Element {
    var name := if e.name != "" then Increment(e.name) else e.name;
    var value := if e.tag == Input then (if e.kind != "hidden" then "" else e.value)
                 else if e.tag == Textarea then "" else e.value;
    var selected := if e.tag == Select then seq(|e.selected|, _ => false) else e.selected;
    Element(e.tag, e.kind, Increment(e.id), name, value, selected, e.dynamic)
  }

  /** Whether the handler's .find('.dynamic-field').addBack() selects the
      element at index i of a row: the row element itself and every
      dynamic-field descendant. */
  predicate Visited(row: seq<Element>, i: int)
    requires 0 <= i < |row|
  {
    i == 0 || row[i].dynamic
  }

  /** The clone of a row after the .each loop. */
  function Cloned(row: seq<Element>): seq<Element> {
    seq(|row|, i requires 0 <= i < |row| => if Visited(row, i) then Renumbered(row[i]) else row[i])
  }

  /** The reset rules of the clone: elements the loop skips are copied as
      they are; a visited element keeps its tag, type and class, gets its
      id and (non-empty) name renumbered, loses the text of a textarea or
      a visible input but not the value of a hidden one, and a select
      loses every selected option. */
  lemma ClonedRules(row: seq<Element>)
    ensures |Cloned(row)| == |row|
    ensures var c := Cloned(row);
      forall i :: 0 <= i < |row| && !Visited(row, i) ==> c[i] == row[i]
    ensures var c := Cloned(row);
      forall i :: 0 <= i < |row| && Visited(row, i) ==>
        && c[i].tag == row[i].tag && c[i].kind == row[i].kind && c[i].dynamic == row[i].dynamic
        && c[i].id == Increment(row[i].id)
        && c[i].name == (if row[i].name == "" then "" else Increment(row[i].name))
    ensures var c := Cloned(row);
      forall i :: 0 <= i < |row| && Visited(row, i) ==>
        && (row[i].tag == Textarea ==> c[i].value == "")
        && (row[i].tag == Input ==> c[i].value == if row[i].kind == "hidden" then row[i].value else "")
        && (row[i].tag in {Select, OtherTag} ==> c[i].value == row[i].value)
    ensures var c := Cloned(row);
      forall i :: 0 <= i < |row| && Visited(row, i) ==>
        && |c[i].selected| == |row[i].selected|
        && (row[i].tag == Select ==> forall k :: 0 <= k < |c[i].selected| ==> !c[i].selected[k])
        && (row[i].tag != Select ==> c[i].selected == row[i].selected)
  {
  }

  /** The .each loop, in place on the cloned elements. */
  method RenumberClone(elts: array<Element>)
    modifies elts
    ensures elts[..] == Cloned(old(elts[..]))
  {
    ghost var orig := elts[..];
    ghost var want := Cloned(orig);
    var i := 0;
    while i < elts.Length
      invariant 0 <= i <= elts.Length
      invariant forall k :: 0 <= k < i ==> elts[k] == want[k]
      invariant forall k :: i <= k < elts.Length ==> elts[k] == orig[k]
    {
      if i == 0 || elts[i].dynamic {
        elts[i] := Renumbered(elts[i]);
      }
      i := i + 1;
    }
    assert elts[..] == want;
  }

  /** A cleared clone keeps the CSRF token of the row it copies and the
      structure of the row, and holds no typed text. */
  lemma ClonedMeaning(row: seq<Element>, i: int)
    requires 0 <= i < |row| && Visited(row, i)
    ensures Cloned(row)[i].id == Increment(row[i].id)
    ensures row[i].tag == Input && row[i].kind == "hidden" ==> Cloned(row)[i].value == row[i].value
    ensures row[i].tag == Input && row[i].kind != "hidden" ==> Cloned(row)[i].value == ""
    ensures row[i].tag == Textarea ==> Cloned(row)[i].value == ""
    ensures row[i].tag == Select ==> forall k :: 0 <= k < |row[i].selected| ==> !Cloned(row)[i].selected[k]
  {
  }

  /** A row whose ids carry no number is copied with the same ids: the
      clone's ids are new only where a -N- appears. */
  lemma ClonedSameIds(row: seq<Element>, i: int)
    requires 0 <= i < |row|
    ensures Cloned(row)[i].id == row[i].id <==> !Visited(row, i) || NoMarker(row[i].id)
  {
    IncrementUnchangedIff(row[i].id);
  }

  /* ---- the rows of one dynamic list ---- */

  /** The id the remove handler takes apart: id.split('-'). */
  function Split(s: string): (parts: seq<string>)
    ensures |parts| >= 1
    ensures forall k :: 0 <= k < |parts| ==> '-' !in parts[k]
  {
    if s == [] then [""]
    else if s[0] == '-' then [""] + Split(s[1..])
    else
      var rest := Split(s[1..]);
      [[s[0]] + rest[0]] + rest[1..]
  }

  /** parts.join('-'); [].join('-') is ''. */
  function Join(parts: seq<string>): string {
    if parts == [] then ""
    else if |parts| == 1 then parts[0]
    else parts[0] + "-" + Join(parts[1..])
  }

  /** Joining the pieces of a split gives the string back. */
  lemma {:induction false} JoinSplit(s: string)
    ensures Join(Split(s)) == s
  {
    if s != [] {
      JoinSplit(s[1..]);
      var rest := Split(s[1..]);
      if s[0] != '-' && |rest| > 1 {
        assert Join(rest) == rest[0] + "-" + Join(rest[1..]);
        assert ([[s[0]] + rest[0]] + rest[1..])[1..] == rest[1..];
      }
    }
  }

  /** split('-').slice(0, 2).join('-') */
  function IdPrefix(id: string): string {
    var parts := Split(id);
    Join(parts[..if |parts| < 2 then |parts| else 2])
  }

  /** No two positions of s both hold a '-'. */
  predicate AtMostOneDash(s: string) {
    forall i, j :: 0 <= i < j < |s| ==> !(s[i] == '-' && s[j] == '-')
  }

  /** a + "-" + b has its only '-' between a and b. */
  lemma OneDash(a: string, b: string)
    requires '-' !in a && '-' !in b
    ensures AtMostOneDash(a + "-" + b) && '-' in a + "-" + b
  {
    var p := a + "-" + b;
    assert p[|a|] == '-';
    forall i | 0 <= i < |p| && p[i] == '-'
      ensures i == |a|
    {
    }
  }

  /** The id prefix is the longest prefix of the id with at most one '-':
      the whole id when it has fewer than two, else up to its second '-'. */
  lemma IdPrefixMeaning(id: string)
    ensures var p := IdPrefix(id);
      && p <= id
      && AtMostOneDash(p)
      && (p == id || (id[|p|] == '-' && '-' in p))
  {
    var parts := Split(id);
    JoinSplit(id);
    assert Join(parts) == id;
    if |parts| >= 2 {
      var two := parts[..2];
      assert two == [parts[0], parts[1]];
      assert two[1..] == [parts[1]];
      assert Join([parts[1]]) == parts[1];
      var p := parts[0] + "-" + parts[1];
      assert Join(two) == p;
      assert IdPrefix(id) == p;
      OneDash(parts[0], parts[1]);
      if |parts| > 2 {
        var tail := Join(parts[2..]);
        assert parts[1..][1..] == parts[2..];
        assert Join(parts[1..]) == parts[1] + "-" + tail;
        assert id == p + "-" + tail;
        assert id[..|p|] == p && id[|p|] == '-';
      } else {
        assert parts[1..] == [parts[1]];
        assert id == p;
      }
    } else {
      assert |parts| == 1 && parts[..1] == parts;
      assert IdPrefix(id) == Join(parts) == parts[0];
      assert '-' !in parts[0];
    }
  }

  /** Splitting text that starts with a '-'-free piece and a '-'. */
  lemma {:induction false} SplitCons(a: string, s: string)
    requires '-' !in a
    ensures Split(a + "-" + s) == [a] + Split(s)
    decreases |a|
  {
    if a == [] {
      assert ("" + "-" + s)[1..] == s;
    } else {
      var t := a + "-" + s;
      assert t[0] == a[0] && t[1..] == a[1..] + "-" + s;
      SplitCons(a[1..], s);
      assert [t[0]] + a[1..] == a;
    }
  }

  /** A button id field-N-rest names the row field-N. */
  lemma IdPrefixOfRow(field: string, n: string, rest: string)
    requires '-' !in field && '-' !in n
    ensures IdPrefix(field + "-" + n + "-" + rest) == field + "-" + n
  {
    SplitCons(n, rest);
    assert field + "-" + n + "-" + rest == field + "-" + (n + "-" + rest);
    SplitCons(field, n + "-" + rest);
    var parts := Split(field + "-" + n + "-" + rest);
    assert parts == [field] + ([n] + Split(rest));
    assert parts[..2] == [field, n];
    assert [field, n][1..] == [n];
    assert Join([n]) == n;
    assert Join([field, n]) == field + "-" + n;
  }

  /** The first row whose row element has the given id, as $('#' + id)
      finds it. */
  function FindRow(rows: seq<seq<Element>>, id: string): (r: Option<nat>)
    ensures r.Some? ==> r.value < |rows| && |rows[r.value]| > 0 && rows[r.value][0].id == id
    ensures r.Some? ==> forall k :: 0 <= k < r.value ==> !(|rows[k]| > 0 && rows[k][0].id == id)
    ensures r.None? ==> forall k :: 0 <= k < |rows| ==> !(|rows[k]| > 0 && rows[k][0].id == id)
  {
    if rows == [] then None
    else if |rows[0]| > 0 && rows[0][0].id == id then Some(0)
    else
      var r := FindRow(rows[1..], id);
      if r.Some? then Some(r.value + 1) else None
  }

  /** The rows after a click on the remove button with this id: the row
      named by the prefix goes only if it has a sibling. */
  function AfterRemove(rows: seq<seq<Element>>, buttonId: string): seq<seq<Element>> {
    var found := FindRow(rows, IdPrefix(buttonId) + "-group");
    if found.Some? && |rows| > 1 then rows[..found.value] + rows[found.value + 1..] else rows
  }

  /** The list never becomes empty; a click removes at most one row, the
      one named by the button, and keeps the order of the rest. */
  lemma RemoveKeepsOne(rows: seq<seq<Element>>, buttonId: string)
    ensures |rows| > 0 ==> |AfterRemove(rows, buttonId)| > 0
    ensures |rows| == 1 ==> AfterRemove(rows, buttonId) == rows
    ensures var after := AfterRemove(rows, buttonId);
      after == rows ||
      (exists k :: 0 <= k < |rows| && |rows[k]| > 0 && rows[k][0].id == IdPrefix(buttonId) + "-group" &&
         after == rows[..k] + rows[k + 1..])
  {
    var found := FindRow(rows, IdPrefix(buttonId) + "-group");
    if found.Some? && |rows| > 1 {
      var k := found.value;
      assert rows[k][0].id == IdPrefix(buttonId) + "-group";
    }
  }

  /** One list of rows on the page, as the two handlers change it. */
  class RowList {
    var rows: seq<seq<Element>>

    constructor (rows: seq<seq<Element>>)
      ensures this.rows == rows
    {
      this.rows := rows;
    }

    /** The add-field handler: clone the last row, renumber and clear it,
        append it; with no row there is nothing to clone. */
    method AddField()
      modifies this
      ensures old(rows) == [] ==> rows == []
      ensures old(rows) != [] ==> rows == old(rows) + [Cloned(old(rows)[|old(rows)| - 1])]
    {
      if rows != [] {
        var last := rows[|rows| - 1];
        var clone := new Element[|last|](i requires 0 <= i < |last| => last[i]);
        assert clone[..] == last;
        RenumberClone(clone);
        rows := rows + [clone[..]];
      }
    }

    /** The remove handler. */
    method Remove(buttonId: string)
      modifies this
      ensures rows == AfterRemove(old(rows), buttonId)
    {
      var found := FindRow(rows, IdPrefix(buttonId) + "-group");
      if found.Some? && |rows| > 1 {
        rows := rows[..found.value] + rows[found.value + 1..];
      }
    }
  }
}
