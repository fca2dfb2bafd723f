/**
 * The text form shared by `SerializedUnsignedIntegerVector` and
 * `SerializedIntegerVector`: the elements' renderings between two brackets,
 * on one line when they are short and one per indented line otherwise, and
 * the loop of `Parse` that reads them back.
 */
module CppLayout {
  import opened Bytes
  import opened CppText

  const COMMA: Text := ","
  const SPACE: Text := " "
  const NEWLINE: Text := "\r\n"
  /** A line break and the four spaces before an element on its own line. */
  const BREAK: Text := "\r\n    "

  /** The brackets the two vectors use: `<` `>` and `(` `)`. */
  predicate Brackets(open: Char8, close: Char8)
  {
    (open == '<' && close == '>') || (open == '(' && close == ')')
  }

  // ---------------------------------------------------------------- rendering

  /**
   * The running total `Render` compares with 70: each rendering's length, plus
   * 2 for a separator whenever the total so far is not zero.
   */
  function Width(rs: seq<Text>): nat
  {
    if rs == [] then 0
    else
      var w := Width(rs[..|rs| - 1]);
      (if w > 0 then w + 2 else 0) + |rs[|rs| - 1]|
  }

  /** One more rendering adds its length, and 2 for the separator unless the total was zero. */
  lemma WidthSnoc(rs: seq<Text>, r: Text)
    ensures Width(rs + [r]) == (if Width(rs) > 0 then Width(rs) + 2 else 0) + |r|
  {
    assert (rs + [r])[..|rs|] == rs;
  }

  /** Each element preceded by a comma and `gap`. */
  function Tail(rs: seq<Text>, gap: Text): Text
  {
    if rs == [] then [] else COMMA + gap + rs[0] + Tail(rs[1..], gap)
  }

  /** The elements, the first preceded by `lead` and each later one by a comma and `gap`. */
  function Joined(rs: seq<Text>, lead: Text, gap: Text): Text
  {
    if rs == [] then [] else lead + rs[0] + Tail(rs[1..], gap)
  }

  /** `Render`: one line (`<1, 2>`) below 70, else one element per line and a final line break. */
  function Layout(open: Char8, close: Char8, rs: seq<Text>): Text
  {
    [open] + (if Width(rs) >= 70 then Joined(rs, BREAK, BREAK) + NEWLINE else Joined(rs, [], SPACE)) + [close]
  }

  lemma Assoc(a: Text, b: Text, c: Text)
    ensures (a + b) + c == a + (b + c)
  {
  }

  lemma {:induction false} TailSnoc(rs: seq<Text>, r: Text, gap: Text)
    ensures Tail(rs + [r], gap) == Tail(rs, gap) + (COMMA + gap) + r
  {
    if rs == [] {
      assert [r][1..] == [];
      assert Tail([r], gap) == COMMA + gap + r + [];
    } else {
      assert (rs + [r])[1..] == rs[1..] + [r];
      TailSnoc(rs[1..], r, gap);
      var head := COMMA + gap + rs[0];
      var t := Tail(rs[1..], gap);
      assert Tail(rs + [r], gap) == head + ((t + (COMMA + gap)) + r);
      Assoc(t, COMMA + gap, r);
      Assoc(head, t, (COMMA + gap) + r);
      Assoc(head + t, COMMA + gap, r);
    }
  }

  /** What the loop of `Render` appends for one more element. */
  lemma JoinedSnoc(rs: seq<Text>, r: Text, lead: Text, gap: Text)
    ensures Joined(rs + [r], lead, gap) == Joined(rs, lead, gap) + (if rs == [] then lead else COMMA + gap) + r
  {
    if rs == [] {
      assert [r][1..] == [];
      assert Joined([r], lead, gap) == lead + r + [];
    } else {
      assert (rs + [r])[1..] == rs[1..] + [r];
      TailSnoc(rs[1..], r, gap);
      var head := lead + rs[0];
      var t := Tail(rs[1..], gap);
      assert Joined(rs + [r], lead, gap) == head + ((t + (COMMA + gap)) + r);
      Assoc(t, COMMA + gap, r);
      Assoc(head, t, (COMMA + gap) + r);
      Assoc(head + t, COMMA + gap, r);
    }
  }

  /** Renderings that are never empty (as numbers' are): the running total is the length of the one-line form. */
  lemma {:induction false} WidthIsInlineLength(rs: seq<Text>)
    requires forall i :: 0 <= i < |rs| ==> rs[i] != []
    ensures Width(rs) == |Joined(rs, [], SPACE)|
    ensures Width(rs) == 0 <==> rs == []
  {
    if rs != [] {
      var init := rs[..|rs| - 1];
      WidthIsInlineLength(init);
      assert init + [rs[|rs| - 1]] == rs;
      JoinedSnoc(init, rs[|rs| - 1], [], SPACE);
    }
  }

  /** So the multi-line form is chosen exactly when the one-line form would be 70 characters or longer. */
  lemma LayoutChoice(open: Char8, close: Char8, rs: seq<Text>)
    requires forall i :: 0 <= i < |rs| ==> rs[i] != []
    ensures |Joined(rs, [], SPACE)| < 70 ==> Layout(open, close, rs) == [open] + Joined(rs, [], SPACE) + [close]
    ensures |Joined(rs, [], SPACE)| >= 70 ==> Layout(open, close, rs) == [open] + Joined(rs, BREAK, BREAK) + NEWLINE + [close]
    ensures rs == [] ==> Layout(open, close, rs) == [open, close]
  {
    WidthIsInlineLength(rs);
  }

  /** The second loop of `Render`, given the renderings and their running total. */
  method Arrange(open: Char8, close: Char8, rs: seq<Text>, total: nat) returns (rendering: Text)
    requires total == Width(rs)
    ensures rendering == Layout(open, close, rs)
  {
    rendering := [open];
    var first := true;
    if total >= 70 {
      for k := 0 to |rs|
        invariant first == (k == 0)
        invariant rendering == [open] + Joined(rs[..k], BREAK, BREAK)
      {
        if !first {
          rendering := rendering + COMMA;
        }
        rendering := rendering + BREAK + rs[k];
        first := false;
        JoinedSnoc(rs[..k], rs[k], BREAK, BREAK);
        assert rs[..k + 1] == rs[..k] + [rs[k]];
      }
      rendering := rendering + NEWLINE;
    } else {
      for k := 0 to |rs|
        invariant first == (k == 0)
        invariant rendering == [open] + Joined(rs[..k], [], SPACE)
      {
        if !first {
          rendering := rendering + COMMA + SPACE;
        }
        rendering := rendering + rs[k];
        first := false;
        JoinedSnoc(rs[..k], rs[k], [], SPACE);
        assert rs[..k + 1] == rs[..k] + [rs[k]];
      }
    }
    assert rs[..|rs|] == rs;
    rendering := rendering + [close];
  }

  // ---------------------------------------------------------------- parsing

  /** `find_first_of(",>", i)` (or `",)"`): the first comma or closing bracket at or after `i`. */
  function FindStop(t: Text, close: Char8, i: nat): (j: nat)
    requires i < |t| && t[|t| - 1] == close
    ensures i <= j < |t| && (t[j] == ',' || t[j] == close)
    decreases |t| - i
  {
    if t[i] == ',' || t[i] == close then i else FindStop(t, close, i + 1)
  }

  /** `FindStop` finds the first comma or closing bracket: none comes between `i` and it. */
  lemma {:induction false} FindStopFirst(t: Text, close: Char8, i: nat, k: nat)
    requires i < |t| && t[|t| - 1] == close
    requires i <= k < FindStop(t, close, i)
    ensures t[k] != ',' && t[k] != close
    decreases |t| - i
  {
    if k > i {
      FindStopFirst(t, close, i + 1, k);
    }
  }

  /** What one turn of the loop of `Parse` pushes, and where the next turn starts. */
  datatype Step<T> = Step(item: T, next: nat)

  /**
   * One turn of the loop of `Parse` at position `i`: the element runs to the
   * next comma or closing bracket, is trimmed, must hold no blank and must be
   * converted by `scan`; a comma is stepped over, the closing bracket is not.
   */
  function Turn<T>(t: Text, close: Char8, scan: Text -> Option<T>, i: nat): (r: Option<Step<T>>)
    requires i < |t| - 1 && t[|t| - 1] == close && close != ',' && scan([]) == None
    ensures r.Some? ==> i < r.value.next <= |t| - 1
  {
    var j := FindStop(t, close, i);
    var e := Trim(t[i..j]);
    if HasBlank(e) then None
    else match scan(e)
      case None => None
      case Some(x) =>
        Some(Step(x, if t[j] == ',' then j + 1 else j))
  }

  /** Whether parsing succeeded and the elements pushed until it stopped. */
  datatype Parsed<T> = Parsed(ok: bool, items: seq<T>)

  /**
   * The loop of `Parse` from position `i`, with `pushed` the elements already
   * pushed: it runs up to the closing bracket, and an element that fails stops
   * it with the elements pushed so far.
   */
  function ParseFrom<T>(t: Text, close: Char8, scan: Text -> Option<T>, i: nat, pushed: seq<T>): (r: Parsed<T>)
    requires t != [] && t[|t| - 1] == close && close != ',' && scan([]) == None
    decreases |t| - i
  {
    if i >= |t| - 1 then Parsed(true, pushed)
    else match Turn(t, close, scan, i)
      case None => Parsed(false, pushed)
      case Some(step) => ParseFrom(t, close, scan, step.next, pushed + [step.item])
  }

  /**
   * `Parse`: after trimming, the text must start with `open` and end with
   * `close` (else the value is left alone: `None`); then the value is cleared
   * and refilled by the loop.
   */
  function ParseList<T>(rendering: Text, open: Char8, close: Char8, scan: Text -> Option<T>): (r: Option<Parsed<T>>)
    requires close != ',' && scan([]) == None
    ensures r == None <==> var t := Trim(rendering); |t| < 2 || t[0] != open || t[|t| - 1] != close
  {
    var t := Trim(rendering);
    if |t| < 2 || t[0] != open || t[|t| - 1] != close then None
    else Some(ParseFrom(t, close, scan, 1, []))
  }

  /** The loop of `Parse`, on text already trimmed and bracketed. */
  method ParseRows<T>(t: Text, close: Char8, scan: Text -> Option<T>) returns (ok: bool, items: seq<T>)
    requires |t| >= 2 && t[|t| - 1] == close && close != ',' && scan([]) == None
    ensures Parsed(ok, items) == ParseFrom(t, close, scan, 1, [])
  {
    items := [];
    var i := 1;
    while i < |t| - 1
      invariant 1 <= i <= |t| - 1
      invariant ParseFrom(t, close, scan, i, items) == ParseFrom(t, close, scan, 1, [])
      decreases |t| - i
    {
      var j := FindStop(t, close, i);
      var element := Trim(t[i..j]);
      if HasBlank(element) {
        assert Turn(t, close, scan, i) == None;
        return false, items;
      }
      match scan(element)
      case None =>
        assert Turn(t, close, scan, i) == None;
        return false, items;
      case Some(x) =>
        var next := if t[j] == ',' then j + 1 else j;
        assert Turn(t, close, scan, i) == Some(Step(x, next));
        items := items + [x];
        i := next;
    }
    ok := true;
  }

  // ---------------------------------------------------------------- round trip

  /** Characters a rendering or the layout around it may hold besides brackets and commas. */
  predicate Inert(c: char)
  {
    IsSpace(c) || c == '+' || c == '-' || '0' <= c <= '9'
  }

  /** The rendering of one number: a nonempty run of digits and signs. */
  predicate Plain(r: Text)
  {
    r != [] && forall k :: 0 <= k < |r| ==> r[k] == '+' || r[k] == '-' || '0' <= r[k] <= '9'
  }

  predicate AllInert(t: Text)
  {
    forall k :: 0 <= k < |t| ==> Inert(t[k])
  }

  /** `a` occurs in `t` at position `i`. */
  predicate At(t: Text, i: nat, a: Text)
  {
    i + |a| <= |t| && t[i..i + |a|] == a
  }

  lemma AtSplit(t: Text, i: nat, a: Text, b: Text)
    requires At(t, i, a + b)
    ensures At(t, i, a) && At(t, i + |a|, b)
  {
    assert t[i..i + |a|] == (a + b)[..|a|];
    assert t[i + |a|..i + |a| + |b|] == (a + b)[|a|..];
  }

  /** A text between two brackets sits after the first, and the second ends the whole. */
  lemma Bracketed(t: Text, open: Char8, body: Text, close: Char8)
    requires t == [open] + body + [close]
    ensures At(t, 1, body) && |t| == |body| + 2 && t[|t| - 1] == close
  {
    assert t[1..1 + |body|] == body;
  }

  /** Four texts in a row each sit where the ones before them end. */
  lemma AtFour(t: Text, i: nat, a: Text, b: Text, c: Text, d: Text)
    requires At(t, i, a + b + c + d)
    ensures At(t, i, a) && At(t, i + |a|, b) && At(t, i + |a| + |b|, c) && At(t, i + |a| + |b| + |c|, d)
    ensures |a + b + c + d| == |a| + |b| + |c| + |d|
  {
    AtSplit(t, i, a + b + c, d);
    AtSplit(t, i, a + b, c);
    AtSplit(t, i, a, b);
  }

  lemma AtJoin(t: Text, i: nat, a: Text, b: Text)
    requires At(t, i, a) && At(t, i + |a|, b)
    ensures At(t, i, a + b)
  {
    assert t[i..i + |a| + |b|] == t[i..i + |a|] + t[i + |a|..i + |a| + |b|];
  }

  /** `find_first_of` skips text with no comma or bracket in it. */
  lemma {:induction false} StopAfter(t: Text, close: Char8, i: nat, body: Text)
    requires Brackets('<', close) || Brackets('(', close)
    requires i + |body| < |t| && t[i..i + |body|] == body && t[|t| - 1] == close
    requires t[i + |body|] == ',' || t[i + |body|] == close
    requires AllInert(body)
    ensures FindStop(t, close, i) == i + |body|
    decreases |body|
  {
    if body != [] {
      assert t[i] == body[0];
      assert t[i + 1..i + 1 + |body[1..]|] == body[1..];
      StopAfter(t, close, i + 1, body[1..]);
    }
  }

  /** A turn whose element converts. */
  lemma TurnOf<T>(t: Text, close: Char8, scan: Text -> Option<T>, i: nat, j: nat, e: Text, x: T)
    requires i < |t| - 1 && t[|t| - 1] == close && close != ',' && scan([]) == None
    requires FindStop(t, close, i) == j && Trim(t[i..j]) == e && !HasBlank(e) && scan(e) == Some(x)
    ensures Turn(t, close, scan, i) == Some(Step(x, if t[j] == ',' then j + 1 else j))
  {
  }

  /** One element of the layout, between whitespace, is read by one turn of the loop. */
  lemma TurnOne<T>(t: Text, close: Char8, scan: Text -> Option<T>, i: nat, lead: Text, r: Text, trail: Text, x: T)
    requires Brackets('<', close) || Brackets('(', close)
    requires |t| >= 1 && t[|t| - 1] == close && scan([]) == None
    requires Spaces(lead) && Spaces(trail) && Plain(r) && scan(r) == Some(x)
    requires At(t, i, lead) && At(t, i + |lead|, r) && At(t, i + |lead| + |r|, trail)
    requires var j := i + |lead| + |r| + |trail|; j < |t| && (t[j] == ',' || t[j] == close)
    ensures var j := i + |lead| + |r| + |trail|;
      i < |t| - 1 && Turn(t, close, scan, i) == Some(Step(x, if t[j] == ',' then j + 1 else j))
  {
    AtJoin(t, i, lead, r);
    AtJoin(t, i, lead + r, trail);
    var body := lead + r + trail;
    var j := i + |body|;
    assert AllInert(body);
    StopAfter(t, close, i, body);
    TrimPadded(lead, r, trail);
    NoBlanks(r);
    TurnOf(t, close, scan, i, j, r, x);
  }

  /**
   * Where an element that is not the last ends, a comma and the gap follow,
   * then the rest of the elements.
   */
  lemma NextPlaces(t: Text, p: nat, rs: seq<Text>, gap: Text, suffix: Text)
    requires |rs| >= 2
    requires At(t, p, Tail(rs[1..], gap)) && At(t, p + |Tail(rs[1..], gap)|, suffix)
    ensures var more := rs[1..]; var q := p + 1 + |gap|;
      p < |t| && t[p] == ',' && At(t, p + 1, gap) && At(t, q, more[0])
      && At(t, q + |more[0]|, Tail(more[1..], gap)) && At(t, q + |more[0]| + |Tail(more[1..], gap)|, suffix)
      && q + |more[0]| + |Tail(more[1..], gap)| == p + |Tail(rs[1..], gap)|
  {
    var more := rs[1..];
    assert Tail(more, gap) == COMMA + gap + more[0] + Tail(more[1..], gap);
    AtSplit(t, p, COMMA + gap + more[0], Tail(more[1..], gap));
    AtSplit(t, p, COMMA + gap, more[0]);
    AtSplit(t, p, COMMA, gap);
  }

  /** What the loop reads from `i`, the start of an element of the layout, to the end of the text. */
  ghost predicate Laid<T>(t: Text, close: Char8, scan: Text -> Option<T>, i: nat, lead: Text, rs: seq<Text>, v: seq<T>, gap: Text, suffix: Text)
  {
    && (Brackets('<', close) || Brackets('(', close))
    && scan([]) == None
    && Spaces(lead) && Spaces(gap) && Spaces(suffix)
    && rs != [] && |rs| == |v|
    && (forall k :: 0 <= k < |rs| ==> Plain(rs[k]) && scan(rs[k]) == Some(v[k]))
    && At(t, i, lead) && At(t, i + |lead|, rs[0])
    && At(t, i + |lead| + |rs[0]|, Tail(rs[1..], gap))
    && At(t, i + |lead| + |rs[0]| + |Tail(rs[1..], gap)|, suffix)
    && i + |lead| + |rs[0]| + |Tail(rs[1..], gap)| + |suffix| == |t| - 1 && t[|t| - 1] == close
  }

  /** Past an element that is not the last, the rest of the layout is laid out the same way. */
  lemma LaidNext<T>(t: Text, close: Char8, scan: Text -> Option<T>, i: nat,
                    lead: Text, rs: seq<Text>, v: seq<T>, gap: Text, suffix: Text)
    requires Laid(t, close, scan, i, lead, rs, v, gap, suffix) && |rs| >= 2
    ensures Laid(t, close, scan, i + |lead| + |rs[0]| + 1, gap, rs[1..], v[1..], gap, suffix)
  {
    NextPlaces(t, i + |lead| + |rs[0]|, rs, gap, suffix);
  }

  /** A turn of the loop at an element that is not the last reads it and steps past its comma. */
  lemma TurnFirst<T>(t: Text, close: Char8, scan: Text -> Option<T>, i: nat,
                     lead: Text, rs: seq<Text>, v: seq<T>, gap: Text, suffix: Text)
    requires Laid(t, close, scan, i, lead, rs, v, gap, suffix) && |rs| >= 2
    ensures i < |t| - 1 && Turn(t, close, scan, i) == Some(Step(v[0], i + |lead| + |rs[0]| + 1))
  {
    var p := i + |lead| + |rs[0]|;
    NextPlaces(t, p, rs, gap, suffix);
    Spaces0();
    TurnOne(t, close, scan, i, lead, rs[0], [], v[0]);
  }

  /**
   * The loop reads exactly the elements `v` from `i` on: each turn converts
   * the next one, and the last turn stops at the closing bracket.
   */
  ghost predicate Reads<T>(t: Text, close: Char8, scan: Text -> Option<T>, i: nat, v: seq<T>)
    requires t != [] && t[|t| - 1] == close && close != ',' && scan([]) == None
    decreases |v|
  {
    if v == [] then i == |t| - 1
    else
      && i < |t| - 1 && Turn(t, close, scan, i).Some? && Turn(t, close, scan, i).value.item == v[0]
      && Reads(t, close, scan, Turn(t, close, scan, i).value.next, v[1..])
  }

  /** Where the loop reads `v` to the end, it pushes all of it and succeeds. */
  lemma {:induction false} ParseReads<T>(t: Text, close: Char8, scan: Text -> Option<T>, i: nat, pushed: seq<T>, v: seq<T>)
    requires t != [] && t[|t| - 1] == close && close != ',' && scan([]) == None
    requires Reads(t, close, scan, i, v)
    ensures ParseFrom(t, close, scan, i, pushed) == Parsed(true, pushed + v)
    decreases |v|
  {
    if v == [] {
      assert pushed + v == pushed;
    } else {
      var step := Turn(t, close, scan, i).value;
      assert pushed + [v[0]] + v[1..] == pushed + v;
      ParseReads(t, close, scan, step.next, pushed + [v[0]], v[1..]);
    }
  }

  /** From the start of an element of the layout, the loop reads every remaining element to the end. */
  lemma {:induction false} LaidReads<T>(t: Text, close: Char8, scan: Text -> Option<T>, i: nat,
                                        lead: Text, rs: seq<Text>, v: seq<T>, gap: Text, suffix: Text)
    requires Laid(t, close, scan, i, lead, rs, v, gap, suffix)
    ensures Reads(t, close, scan, i, v)
    decreases |rs|
  {
    if |rs| == 1 {
      LastRead(t, close, scan, i, lead, rs, v, gap, suffix);
    } else {
      var j := i + |lead| + |rs[0]| + 1;
      LaidNext(t, close, scan, i, lead, rs, v, gap, suffix);
      LaidReads(t, close, scan, j, gap, rs[1..], v[1..], gap, suffix);
      FirstRead(t, close, scan, i, lead, rs, v, gap, suffix, j);
    }
  }

  /** An element that is not the last is read by one turn, and the loop goes on past its comma. */
  lemma FirstRead<T>(t: Text, close: Char8, scan: Text -> Option<T>, i: nat,
                     lead: Text, rs: seq<Text>, v: seq<T>, gap: Text, suffix: Text, j: nat)
    requires Laid(t, close, scan, i, lead, rs, v, gap, suffix) && |rs| >= 2
    requires j == i + |lead| + |rs[0]| + 1 && Reads(t, close, scan, j, v[1..])
    ensures Reads(t, close, scan, i, v)
  {
    TurnFirst(t, close, scan, i, lead, rs, v, gap, suffix);
    ReadsCons(t, close, scan, i, v, j);
  }

  /** A turn that reads `v[0]` and goes on to `j`, where the loop reads the rest of `v`. */
  lemma ReadsCons<T>(t: Text, close: Char8, scan: Text -> Option<T>, i: nat, v: seq<T>, j: nat)
    requires t != [] && t[|t| - 1] == close && close != ',' && scan([]) == None
    requires v != [] && i < |t| - 1 && Turn(t, close, scan, i) == Some(Step(v[0], j))
    requires Reads(t, close, scan, j, v[1..])
    ensures Reads(t, close, scan, i, v)
  {
  }

  /** The last element of the layout is read by one turn that stops at the closing bracket. */
  lemma LastRead<T>(t: Text, close: Char8, scan: Text -> Option<T>, i: nat,
                    lead: Text, rs: seq<Text>, v: seq<T>, gap: Text, suffix: Text)
    requires Laid(t, close, scan, i, lead, rs, v, gap, suffix) && |rs| == 1
    ensures Reads(t, close, scan, i, v)
  {
    assert Tail(rs[1..], gap) == [];
    TurnOne(t, close, scan, i, lead, rs[0], suffix, v[0]);
    assert Reads(t, close, scan, |t| - 1, v[1..]);
  }

  lemma Spaces0()
    ensures Spaces([])
  {
  }

  /** The text `Render` puts around and between elements is whitespace. */
  lemma SpacesBetween()
    ensures Spaces([]) && Spaces(SPACE) && Spaces(BREAK) && Spaces(NEWLINE)
  {
    assert forall i :: 0 <= i < |BREAK| ==> BREAK[i] in " \r\n";
  }

  /** Text with the brackets around it is handed whole to the loop, which starts after the opening bracket. */
  lemma ParseBracketed<T>(t: Text, open: Char8, close: Char8, scan: Text -> Option<T>)
    requires Brackets(open, close) && scan([]) == None
    requires |t| >= 2 && t[0] == open && t[|t| - 1] == close
    ensures ParseList(t, open, close, scan) == Some(ParseFrom(t, close, scan, 1, []))
  {
    NothingToTrim(t);
  }

  /** The elements of a layout, with the text between them, from the opening bracket to the closing one. */
  lemma LaidOut<T>(t: Text, open: Char8, close: Char8, scan: Text -> Option<T>, lead: Text, rs: seq<Text>, v: seq<T>, gap: Text, suffix: Text)
    requires Brackets(open, close) && scan([]) == None
    requires Spaces(lead) && Spaces(gap) && Spaces(suffix)
    requires rs != [] && |rs| == |v| && forall k :: 0 <= k < |rs| ==> Plain(rs[k]) && scan(rs[k]) == Some(v[k])
    requires t == [open] + (lead + rs[0] + Tail(rs[1..], gap) + suffix) + [close]
    ensures Laid(t, close, scan, 1, lead, rs, v, gap, suffix)
  {
    Bracketed(t, open, lead + rs[0] + Tail(rs[1..], gap) + suffix, close);
    LaidAfter(t, close, scan, lead, rs, v, gap, suffix);
  }

  /** The elements and the text between them, laid out after the opening bracket up to the closing one. */
  lemma LaidAfter<T>(t: Text, close: Char8, scan: Text -> Option<T>, lead: Text, rs: seq<Text>, v: seq<T>, gap: Text, suffix: Text)
    requires Brackets('<', close) || Brackets('(', close)
    requires scan([]) == None && Spaces(lead) && Spaces(gap) && Spaces(suffix)
    requires rs != [] && |rs| == |v| && forall k :: 0 <= k < |rs| ==> Plain(rs[k]) && scan(rs[k]) == Some(v[k])
    requires var body := lead + rs[0] + Tail(rs[1..], gap) + suffix;
      At(t, 1, body) && |t| == |body| + 2 && t[|t| - 1] == close
    ensures Laid(t, close, scan, 1, lead, rs, v, gap, suffix)
  {
    AtFour(t, 1, lead, rs[0], Tail(rs[1..], gap), suffix);
  }

  /** The loop reads every element of a layout, from after the opening bracket to the closing one. */
  lemma ParseLaid<T>(t: Text, open: Char8, close: Char8, scan: Text -> Option<T>, lead: Text, rs: seq<Text>, v: seq<T>, gap: Text, suffix: Text)
    requires Brackets(open, close) && scan([]) == None
    requires Spaces(lead) && Spaces(gap) && Spaces(suffix)
    requires rs != [] && |rs| == |v| && forall k :: 0 <= k < |rs| ==> Plain(rs[k]) && scan(rs[k]) == Some(v[k])
    requires t == [open] + (lead + rs[0] + Tail(rs[1..], gap) + suffix) + [close]
    ensures ParseFrom(t, close, scan, 1, []) == Parsed(true, v)
  {
    assert [] + v == v;
    LaidOut(t, open, close, scan, lead, rs, v, gap, suffix);
    LaidReads(t, close, scan, 1, lead, rs, v, gap, suffix);
    ParseReads(t, close, scan, 1, [], v);
  }

  /** What `Render` prints, `Parse` reads back whole, on either layout. */
  lemma ParseLayout<T>(open: Char8, close: Char8, rs: seq<Text>, v: seq<T>, scan: Text -> Option<T>)
    requires Brackets(open, close) && scan([]) == None
    requires |rs| == |v| && forall k :: 0 <= k < |rs| ==> Plain(rs[k]) && scan(rs[k]) == Some(v[k])
    ensures ParseList(Layout(open, close, rs), open, close, scan) == Some(Parsed(true, v))
  {
    var t := Layout(open, close, rs);
    LayoutParts(open, close, rs);
    ParseBracketed(t, open, close, scan);
    if rs != [] {
      SpacesBetween();
      if Width(rs) >= 70 {
        ParseLaid(t, open, close, scan, BREAK, rs, v, BREAK, NEWLINE);
      } else {
        ParseLaid(t, open, close, scan, [], rs, v, SPACE, []);
      }
    }
  }

  /** The text `Render` prints: the brackets around the elements of either layout. */
  lemma LayoutParts(open: Char8, close: Char8, rs: seq<Text>)
    ensures var t := Layout(open, close, rs); |t| >= 2 && t[0] == open && t[|t| - 1] == close
    ensures rs != [] && Width(rs) >= 70 ==>
      Layout(open, close, rs) == [open] + (BREAK + rs[0] + Tail(rs[1..], BREAK) + NEWLINE) + [close]
    ensures rs != [] && Width(rs) < 70 ==>
      Layout(open, close, rs) == [open] + ([] + rs[0] + Tail(rs[1..], SPACE) + []) + [close]
  {
    if rs != [] && Width(rs) < 70 {
      assert [] + rs[0] + Tail(rs[1..], SPACE) + [] == Joined(rs, [], SPACE);
    }
  }
}
