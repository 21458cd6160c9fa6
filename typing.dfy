/**
 * The `SequentialTypingText` component of the home page: a typewriter that
 * reveals an ordered list of texts one character per timer firing.
 *
 * Its three React state cells are `displayedTexts`, `currentTextIndex` and
 * `currentCharIndex`. Every firing of the step effect is one call of `Next`
 * (one call of `TypingText.Step`); a change of the `texts` prop is `Reset`.
 * `displayedTexts` is a JavaScript array written by index, so it may have
 * holes, and copying it with `[...prev]` turns each hole into a real
 * `undefined` entry. The two differ on the page: `map` skips a hole but
 * renders an `undefined` entry as an empty paragraph.
 */
module SequentialTyping {

  /** One slot of `displayedTexts`: a hole, an `undefined` entry, or a string. */
  datatype Slot = Hole | Undefined | Str(value: string)

  /** The three state cells of the component. */
  datatype State = State(shown: seq<Slot>, textIndex: nat, charIndex: nat)

  /** The state every mount and every change of `texts` starts from. */
  function Initial(): State
  {
    State([], 0, 0)
  }

  /** `[...a]`: a copy of the same length in which every hole becomes `undefined`. */
  function Spread(a: seq<Slot>): (r: seq<Slot>)
    ensures |r| == |a|
    ensures forall i :: 0 <= i < |a| ==> r[i] != Hole && (a[i] != Hole ==> r[i] == a[i])
    ensures forall i :: 0 <= i < |a| && a[i] == Hole ==> r[i] == Undefined
  {
    seq(|a|, i requires 0 <= i < |a| => if a[i] == Hole then Undefined else a[i])
  }

  /**
   * `a[k] = v` on a JavaScript array: an index past the end grows the array
   * to `k + 1` slots, and the slots between the old end and `k` are holes.
   */
  function Put(a: seq<Slot>, k: nat, v: string): (r: seq<Slot>)
    ensures |r| == if k < |a| then |a| else k + 1
    ensures r[k] == Str(v)
    ensures forall i :: 0 <= i < |r| && i != k ==> r[i] == if i < |a| then a[i] else Hole
  {
    if k < |a| then a[k := Str(v)] else a + seq(k - |a|, _ => Hole) + [Str(v)]
  }

  /** `!a[k]` in JavaScript: only a non-empty string is truthy. */
  function Falsy(a: seq<Slot>, k: nat): (b: bool)
    ensures b <==> !(k < |a| && a[k].Str? && a[k].value != "")
  {
    k >= |a| || a[k] == Hole || a[k] == Undefined || a[k] == Str("")
  }

  /**
   * One firing of the step effect. Past the last text nothing happens; while
   * the current text has characters left, the slots are copied and the
   * current slot becomes the next longer prefix; otherwise the index moves on
   * to the next text and the slots are left alone.
   */
  function Next(texts: seq<string>, s: State): (r: State)
    ensures s.textIndex < |texts| ==>
              r.textIndex > s.textIndex || (r.textIndex == s.textIndex && r.charIndex == s.charIndex + 1)
  {
    if s.textIndex >= |texts| then s
    else
      var text := texts[s.textIndex];
      if s.charIndex < |text| then
        var copy := Spread(s.shown);
        var cleared := if Falsy(copy, s.textIndex) then Put(copy, s.textIndex, "") else copy;
        State(Put(cleared, s.textIndex, text[..s.charIndex + 1]), s.textIndex, s.charIndex + 1)
      else
        State(s.shown, s.textIndex + 1, 0)
  }

  /** `k` firings of the step effect, one after another. */
  function Run(texts: seq<string>, s: State, k: nat): State
    decreases k
  {
    if k == 0 then s else Run(texts, Next(texts, s), k - 1)
  }

  /** Whether the machine has run past the last text. */
  predicate Terminal(texts: seq<string>, s: State)
  {
    s.textIndex >= |texts|
  }

  /** Whether a step from `s` reveals a character, i.e. waits for a `speed` timer. */
  predicate Timed(texts: seq<string>, s: State)
  {
    s.textIndex < |texts| && s.charIndex < |texts[s.textIndex]|
  }

  /**
   * The characters revealed so far in the texts after text `i`, which has
   * been passed: each of those reveals copied the slots once.
   */
  function After(texts: seq<string>, s: State, i: nat): nat
    requires i < s.textIndex <= |texts|
  {
    TotalLength(texts[i + 1..s.textIndex]) + s.charIndex
  }

  /**
   * Slot `i` of a passed text, after `n` reveals in later texts. A non-empty
   * text is displayed in full. An empty text is never written: its slot lies
   * past the end until a later text is first written, is a hole after that
   * one reveal, and is `undefined` from the next copy on.
   */
  predicate Settled(texts: seq<string>, shown: seq<Slot>, i: nat, n: nat)
    requires i < |texts|
  {
    if texts[i] == "" then
      if n == 0 then i >= |shown| else i < |shown| && shown[i] == (if n == 1 then Hole else Undefined)
    else i < |shown| && shown[i] == Str(texts[i])
  }

  /**
   * The invariant of every state the component reaches: the cursors are in
   * range, every passed text's slot is settled, and the current text shows
   * its first `charIndex` characters (and has no slot yet while that is zero).
   */
  predicate Consistent(texts: seq<string>, s: State)
  {
    && s.textIndex <= |texts|
    && (s.textIndex < |texts| ==> s.charIndex <= |texts[s.textIndex]|)
    && (s.textIndex == |texts| ==> s.charIndex == 0)
    && (s.charIndex == 0 ==> |s.shown| <= s.textIndex)
    && (s.charIndex > 0 ==>
          |s.shown| == s.textIndex + 1 && s.shown[s.textIndex] == Str(texts[s.textIndex][..s.charIndex]))
    && forall i :: 0 <= i < s.textIndex ==> Settled(texts, s.shown, i, After(texts, s, i))
  }

  /** The sum of the lengths of the texts. */
  function TotalLength(texts: seq<string>): nat
  {
    if texts == [] then 0 else |texts[0]| + TotalLength(texts[1..])
  }

  /** The number of characters in the texts after text `i`. */
  function Following(texts: seq<string>, i: nat): nat
    requires i < |texts|
  {
    TotalLength(texts[i + 1..])
  }

  /** The characters still to be revealed from `s`. */
  function CharsLeft(texts: seq<string>, s: State): nat
  {
    if s.textIndex >= |texts| then 0
    else
      (if s.charIndex < |texts[s.textIndex]| then |texts[s.textIndex]| - s.charIndex else 0)
      + TotalLength(texts[s.textIndex + 1..])
  }

  /**
   * The firings still to come from `s`: one per character left, and one index
   * advance for the current text and for each text after it.
   */
  function Remaining(texts: seq<string>, s: State): nat
  {
    if s.textIndex >= |texts| then 0 else CharsLeft(texts, s) + (|texts| - s.textIndex)
  }

  /** The time spent waiting on timers during `k` firings from `s`. */
  function Elapsed(texts: seq<string>, s: State, k: nat, speed: nat): nat
    decreases k
  {
    if k == 0 then 0
    else (if Timed(texts, s) then speed else 0) + Elapsed(texts, Next(texts, s), k - 1, speed)
  }

  /**
   * What `displayedTexts.map(...)` renders: one paragraph per slot that is
   * not a hole, in order; an `undefined` slot gives an empty paragraph.
   */
  function Rendered(shown: seq<Slot>): (r: seq<string>)
    ensures |r| <= |shown|
    ensures (forall i :: 0 <= i < |shown| ==> shown[i] != Hole) ==> |r| == |shown|
  {
    if shown == [] then []
    else
      var first := match shown[0] case Hole => [] case Undefined => [""] case Str(v) => [v];
      first + Rendered(shown[1..])
  }

  /**
   * Over slots without holes the page shows one paragraph per slot, in
   * order: a string slot shows its string and an `undefined` slot `""`.
   */
  lemma {:induction false} RenderedNoHoles(shown: seq<Slot>)
    requires forall i :: 0 <= i < |shown| ==> shown[i] != Hole
    ensures |Rendered(shown)| == |shown|
    ensures forall i :: 0 <= i < |shown| ==>
              Rendered(shown)[i] == if shown[i].Str? then shown[i].value else ""
  {
    if shown != [] {
      RenderedNoHoles(shown[1..]);
    }
  }

  /**
   * The paragraphs the page ends up showing, text by text: a non-empty text
   * shows in full; an empty one shows as an empty paragraph when the texts
   * after it hold at least two characters, and not at all otherwise.
   */
  function Paragraphs(texts: seq<string>): seq<string>
  {
    if texts == [] then []
    else
      var first := if texts[0] != "" then [texts[0]] else if TotalLength(texts[1..]) >= 2 then [""] else [];
      first + Paragraphs(texts[1..])
  }

  /** The strings with the empty ones dropped. */
  function NonEmpty(texts: seq<string>): seq<string>
  {
    if texts == [] then []
    else (if texts[0] != "" then [texts[0]] else []) + NonEmpty(texts[1..])
  }

  /**
   * The three cases of one firing. A reveal sets slot `textIndex` to the
   * prefix of length `charIndex + 1`, turns every other hole below the old
   * length into `undefined`, keeps every other entry, and fills any new
   * slots below `textIndex` with holes (the interim write of `""` into a
   * falsy slot leaves no trace); an advance moves to the next text without
   * touching the slots; past the end nothing changes.
   */
  lemma StepCases(texts: seq<string>, s: State)
    ensures Terminal(texts, s) ==> Next(texts, s) == s
    ensures !Terminal(texts, s) && !Timed(texts, s) ==>
              Next(texts, s) == State(s.shown, s.textIndex + 1, 0)
    ensures Timed(texts, s) ==>
              var r := Next(texts, s);
              && r.textIndex == s.textIndex
              && r.charIndex == s.charIndex + 1
              && |r.shown| == (if s.textIndex < |s.shown| then |s.shown| else s.textIndex + 1)
              && r.shown[s.textIndex] == Str(texts[s.textIndex][..s.charIndex + 1])
              && forall i :: 0 <= i < |r.shown| && i != s.textIndex ==>
                   r.shown[i] == if i >= |s.shown| then Hole else if s.shown[i] == Hole then Undefined else s.shown[i]
  {
  }

  /** The state right after a reset satisfies the invariant. */
  lemma InitialConsistent(texts: seq<string>)
    ensures Consistent(texts, Initial())
  {
  }

  /** The total length of a concatenation is the sum of the total lengths. */
  lemma {:induction false} TotalLengthAppend(a: seq<string>, b: seq<string>)
    ensures TotalLength(a + b) == TotalLength(a) + TotalLength(b)
  {
    if a == [] {
      assert a + b == b;
    } else {
      assert (a + b)[1..] == a[1..] + b;
      TotalLengthAppend(a[1..], b);
    }
  }

  /** An advance past a finished text keeps the count of later reveals of every earlier text. */
  lemma AdvanceAfter(texts: seq<string>, s: State, i: nat)
    requires Consistent(texts, s) && !Terminal(texts, s) && !Timed(texts, s)
    requires i < s.textIndex
    ensures After(texts, Next(texts, s), i) == After(texts, s, i)
  {
    var t := s.textIndex;
    assert texts[i + 1..t + 1] == texts[i + 1..t] + [texts[t]];
    TotalLengthAppend(texts[i + 1..t], [texts[t]]);
    assert TotalLength([texts[t]]) == |texts[t]| by {
      assert [texts[t]][1..] == [];
    }
  }

  /** One firing keeps the invariant. */
  lemma StepConsistent(texts: seq<string>, s: State)
    requires Consistent(texts, s)
    ensures Consistent(texts, Next(texts, s))
  {
    StepCases(texts, s);
    var r := Next(texts, s);
    if Timed(texts, s) {
      forall i | 0 <= i < r.textIndex
        ensures Settled(texts, r.shown, i, After(texts, r, i))
      {
        assert After(texts, r, i) == After(texts, s, i) + 1;
        assert Settled(texts, s.shown, i, After(texts, s, i));
      }
    } else if !Terminal(texts, s) {
      forall i | 0 <= i < r.textIndex
        ensures Settled(texts, r.shown, i, After(texts, r, i))
      {
        if i < s.textIndex {
          AdvanceAfter(texts, s, i);
          assert Settled(texts, s.shown, i, After(texts, s, i));
        } else {
          assert texts[i + 1..i + 1] == [];
          assert texts[i][..|texts[i]|] == texts[i];
        }
      }
    }
  }

  /** Every state reached from a consistent one is consistent. */
  lemma {:induction false} RunConsistent(texts: seq<string>, s: State, k: nat)
    requires Consistent(texts, s)
    ensures Consistent(texts, Run(texts, s, k))
    decreases k
  {
    if k > 0 {
      StepConsistent(texts, s);
      RunConsistent(texts, Next(texts, s), k - 1);
    }
  }

  /**
   * What the invariant says slot by slot: there is no slot past the current
   * text, every string slot holds a non-empty prefix of its own text (never
   * `""`), and every hole or `undefined` slot belongs to a passed empty text.
   */
  lemma ConsistentSlots(texts: seq<string>, s: State)
    requires Consistent(texts, s)
    ensures |s.shown| <= |texts| && |s.shown| <= s.textIndex + 1
    ensures forall i :: 0 <= i < |s.shown| && s.shown[i].Str? ==>
              s.shown[i].value != "" && s.shown[i].value <= texts[i]
    ensures forall i :: 0 <= i < |s.shown| && !s.shown[i].Str? ==> i < s.textIndex && texts[i] == ""
  {
    forall i | 0 <= i < |s.shown|
      ensures s.shown[i].Str? ==> s.shown[i].value != "" && s.shown[i].value <= texts[i]
      ensures !s.shown[i].Str? ==> i < s.textIndex && texts[i] == ""
    {
      if i < s.textIndex {
        assert Settled(texts, s.shown, i, After(texts, s, i));
      }
    }
  }

  /** The slots of `s` end within the slots of any state with the same cursors. */
  lemma SlotsCovered(texts: seq<string>, s: State, t: State)
    requires Consistent(texts, s) && Consistent(texts, t)
    requires s.textIndex == t.textIndex && s.charIndex == t.charIndex
    ensures |s.shown| <= |t.shown|
  {
    if s.charIndex == 0 && |s.shown| > 0 {
      var j := |s.shown| - 1;
      assert After(texts, s, j) == After(texts, t, j);
      assert Settled(texts, s.shown, j, After(texts, s, j));
      assert Settled(texts, t.shown, j, After(texts, t, j));
    }
  }

  /** Reachable states are determined by the two cursors alone. */
  lemma ConsistentUnique(texts: seq<string>, s: State, t: State)
    requires Consistent(texts, s) && Consistent(texts, t)
    requires s.textIndex == t.textIndex && s.charIndex == t.charIndex
    ensures s == t
  {
    SlotsCovered(texts, s, t);
    SlotsCovered(texts, t, s);
    forall i | 0 <= i < |s.shown|
      ensures s.shown[i] == t.shown[i]
    {
      if i < s.textIndex {
        assert After(texts, s, i) == After(texts, t, i);
        assert Settled(texts, s.shown, i, After(texts, s, i));
        assert Settled(texts, t.shown, i, After(texts, t, i));
      }
    }
  }

  /**
   * A string slot stays a string slot and only grows: after a firing it
   * holds an extension of what it held before.
   */
  lemma StepExtendsSlot(texts: seq<string>, s: State, i: nat)
    requires Consistent(texts, s)
    requires i < |s.shown| && s.shown[i].Str?
    ensures i < |Next(texts, s).shown|
    ensures Next(texts, s).shown[i].Str? && s.shown[i].value <= Next(texts, s).shown[i].value
  {
    StepCases(texts, s);
    if Timed(texts, s) && i == s.textIndex {
      var text := texts[i];
      assert text[..s.charIndex] == text[..s.charIndex + 1][..s.charIndex];
    }
  }

  /** The same over any number of firings. */
  lemma {:induction false} RunExtendsSlot(texts: seq<string>, s: State, k: nat, i: nat)
    requires Consistent(texts, s)
    requires i < |s.shown| && s.shown[i].Str?
    ensures i < |Run(texts, s, k).shown|
    ensures Run(texts, s, k).shown[i].Str? && s.shown[i].value <= Run(texts, s, k).shown[i].value
    decreases k
  {
    if k > 0 {
      var n := Next(texts, s);
      StepExtendsSlot(texts, s, i);
      StepConsistent(texts, s);
      RunExtendsSlot(texts, n, k - 1, i);
    }
  }

  /** Slot `k` receives a new string between `before` and `after`. */
  predicate Written(before: seq<Slot>, after: seq<Slot>, k: nat)
  {
    k < |after| && after[k].Str? && (k >= |before| || before[k] != after[k])
  }

  /**
   * A firing writes a string only into the slot of the current text, and
   * only once every earlier non-empty text is displayed in full: text
   * `i + 1` never starts before text `i` is done.
   */
  lemma StepWritesCurrentOnly(texts: seq<string>, s: State, k: nat)
    requires Consistent(texts, s)
    requires Written(s.shown, Next(texts, s).shown, k)
    ensures Timed(texts, s) && k == s.textIndex
    ensures forall j :: 0 <= j < k && texts[j] != "" ==> j < |s.shown| && s.shown[j] == Str(texts[j])
  {
    StepCases(texts, s);
    forall j | 0 <= j < k && texts[j] != ""
      ensures j < |s.shown| && s.shown[j] == Str(texts[j])
    {
      assert Settled(texts, s.shown, j, After(texts, s, j));
    }
  }

  /** Each firing before the end uses up exactly one of the remaining firings. */
  lemma StepRemaining(texts: seq<string>, s: State)
    requires !Terminal(texts, s)
    ensures Remaining(texts, s) > 0
    ensures Remaining(texts, Next(texts, s)) == Remaining(texts, s) - 1
    ensures CharsLeft(texts, Next(texts, s)) == CharsLeft(texts, s) - (if Timed(texts, s) then 1 else 0)
  {
    var i := s.textIndex;
    if !Timed(texts, s) && i + 1 < |texts| {
      assert texts[i + 1..][1..] == texts[i + 2..];
    }
  }

  /**
   * From any state the machine is terminal after exactly `Remaining` firings
   * and not before.
   */
  lemma {:induction false} RunTerminal(texts: seq<string>, s: State, k: nat)
    ensures Terminal(texts, Run(texts, s, k)) <==> k >= Remaining(texts, s)
    decreases k
  {
    if k > 0 {
      if !Terminal(texts, s) {
        StepRemaining(texts, s);
      }
      RunTerminal(texts, Next(texts, s), k - 1);
    }
  }

  /** Timers wait `speed` once per character and never on an index advance. */
  lemma {:induction false} ElapsedRemaining(texts: seq<string>, s: State, speed: nat)
    ensures Elapsed(texts, s, Remaining(texts, s), speed) == speed * CharsLeft(texts, s)
    decreases Remaining(texts, s)
  {
    if !Terminal(texts, s) {
      var n := Next(texts, s);
      var r := Remaining(texts, s);
      StepRemaining(texts, s);
      ElapsedRemaining(texts, n, speed);
      assert Elapsed(texts, s, r, speed) == (if Timed(texts, s) then speed else 0) + Elapsed(texts, n, r - 1, speed);
      if Timed(texts, s) {
        ScaleSucc(speed, CharsLeft(texts, n));
      }
    }
  }

  /** Multiplication by `a` distributes over a successor. */
  lemma ScaleSucc(a: nat, c: nat)
    ensures a * (c + 1) == a + a * c
  {
  }

  /** From a reset there are `TotalLength(texts) + |texts|` firings to go, all but `|texts|` of them timed. */
  lemma InitialRemaining(texts: seq<string>)
    ensures CharsLeft(texts, Initial()) == TotalLength(texts)
    ensures Remaining(texts, Initial()) == TotalLength(texts) + |texts|
  {
    if texts != [] {
      assert texts[0 + 1..] == texts[1..];
    }
  }

  /**
   * Slots settled as at the end of the animation render as `Paragraphs`:
   * a hole renders nothing and an `undefined` entry an empty paragraph.
   */
  lemma {:induction false} FinishedRendered(texts: seq<string>, shown: seq<Slot>)
    requires |shown| <= |texts|
    requires forall i :: 0 <= i < |texts| ==> Settled(texts, shown, i, Following(texts, i))
    ensures Rendered(shown) == Paragraphs(texts)
  {
    if texts != [] {
      assert Settled(texts, shown, 0, Following(texts, 0));
      var rest := if shown == [] then [] else shown[1..];
      forall i | 0 <= i < |texts| - 1
        ensures Settled(texts[1..], rest, i, Following(texts[1..], i))
      {
        assert texts[1..][i + 1..] == texts[i + 2..];
        assert Settled(texts, shown, i + 1, Following(texts, i + 1));
      }
      FinishedRendered(texts[1..], rest);
    }
  }

  /** `NonEmpty` distributes over concatenation. */
  lemma {:induction false} NonEmptyAppend(a: seq<string>, b: seq<string>)
    ensures NonEmpty(a + b) == NonEmpty(a) + NonEmpty(b)
  {
    if a == [] {
      assert a + b == b;
    } else {
      assert (a + b)[1..] == a[1..] + b;
      NonEmptyAppend(a[1..], b);
    }
  }

  /**
   * Apart from empty paragraphs, the page shows exactly the non-empty texts,
   * each in full and in their order.
   */
  lemma {:induction false} ParagraphsNonEmpty(texts: seq<string>)
    ensures NonEmpty(Paragraphs(texts)) == NonEmpty(texts)
  {
    if texts != [] {
      var first := if texts[0] != "" then [texts[0]] else if TotalLength(texts[1..]) >= 2 then [""] else [];
      NonEmptyAppend(first, Paragraphs(texts[1..]));
      assert NonEmpty(first) == (if texts[0] != "" then [texts[0]] else []) by {
        if first != [] {
          assert first[1..] == [];
        }
      }
      ParagraphsNonEmpty(texts[1..]);
    }
  }

  /**
   * Whether an empty text shows depends on what follows it: with two or more
   * characters after it the page shows an empty paragraph, with fewer it
   * shows nothing.
   */
  lemma EmptyTextParagraphs()
    ensures Paragraphs(["", "ab"]) == ["", "ab"]
    ensures Paragraphs(["", "a"]) == ["a"]
    ensures Paragraphs(["a", ""]) == ["a"]
  {
    assert ["", "ab"][1..] == ["ab"];
    assert ["", "a"][1..] == ["a"];
    assert ["a", ""][1..] == [""];
  }

  /**
   * The texts `["", "ab"]` end on the page as an empty paragraph followed by
   * "ab": the second reveal copies the hole left by the empty text into an
   * `undefined` entry.
   */
  lemma EmptyTextThenTwo()
    ensures Rendered(Run(["", "ab"], Initial(), 4).shown) == ["", "ab"]
  {
    var texts := ["", "ab"];
    assert TotalLength(texts) == 2 by {
      assert texts[1..] == ["ab"];
      assert texts[1..][1..] == [];
    }
    FinalDisplay(texts);
    assert Done(texts, Run(texts, Initial(), 4));
    EmptyTextParagraphs();
  }

  /** From a reset the machine is terminal after exactly `TotalLength(texts) + |texts|` firings, and not before. */
  lemma TerminalAfterExactly(texts: seq<string>)
    ensures forall k: nat :: Terminal(texts, Run(texts, Initial(), k)) <==> k >= TotalLength(texts) + |texts|
  {
    InitialRemaining(texts);
    forall k: nat
      ensures Terminal(texts, Run(texts, Initial(), k)) <==> k >= TotalLength(texts) + |texts|
    {
      RunTerminal(texts, Initial(), k);
    }
  }

  /**
   * The state the animation ends in: past the last text, every non-empty
   * text displayed in full, every empty text's slot settled by the number of
   * characters after it, and the page showing `Paragraphs(texts)`.
   */
  predicate Done(texts: seq<string>, r: State)
  {
    && r.textIndex == |texts| && r.charIndex == 0
    && (forall i :: 0 <= i < |texts| ==> Settled(texts, r.shown, i, Following(texts, i)))
    && Rendered(r.shown) == Paragraphs(texts)
  }

  /** Once the machine has stopped after a reset, it is, and stays, in the `Done` state. */
  lemma FinalDisplay(texts: seq<string>)
    ensures forall k: nat :: k >= TotalLength(texts) + |texts| ==> Done(texts, Run(texts, Initial(), k))
  {
    InitialRemaining(texts);
    InitialConsistent(texts);
    forall k: nat | k >= TotalLength(texts) + |texts|
      ensures Done(texts, Run(texts, Initial(), k))
    {
      RunToEnd(texts, Initial(), k);
    }
  }

  /** A consistent state past the last text is the `Done` state. */
  lemma TerminalDone(texts: seq<string>, s: State)
    requires Consistent(texts, s) && Terminal(texts, s)
    ensures Done(texts, s)
  {
    forall i | 0 <= i < |texts|
      ensures Settled(texts, s.shown, i, Following(texts, i))
    {
      assert texts[i + 1..s.textIndex] == texts[i + 1..];
      assert Settled(texts, s.shown, i, After(texts, s, i));
    }
    ConsistentSlots(texts, s);
    FinishedRendered(texts, s.shown);
  }

  /** Running a consistent state for at least its remaining firings ends in the `Done` state. */
  lemma RunToEnd(texts: seq<string>, s: State, k: nat)
    requires Consistent(texts, s) && k >= Remaining(texts, s)
    ensures Done(texts, Run(texts, s, k))
  {
    RunConsistent(texts, s, k);
    RunTerminal(texts, s, k);
    TerminalDone(texts, Run(texts, s, k));
  }

  /** The whole animation waits `speed` once per character of all the texts, and no more. */
  lemma TotalTime(texts: seq<string>, speed: nat)
    ensures Elapsed(texts, Initial(), TotalLength(texts) + |texts|, speed) == speed * TotalLength(texts)
  {
    InitialRemaining(texts);
    ElapsedRemaining(texts, Initial(), speed);
  }

  /** `k + 1` firings are `k` firings followed by one more. */
  lemma {:induction false} RunStep(texts: seq<string>, s: State, k: nat)
    ensures Run(texts, s, k + 1) == Next(texts, Run(texts, s, k))
    decreases k
  {
    if k > 0 {
      RunStep(texts, Next(texts, s), k - 1);
    }
  }

  /** A mounted `SequentialTypingText`: its `texts` prop and its three state cells. */
  class TypingText {
    var texts: seq<string>
    var displayedTexts: seq<Slot>
    var currentTextIndex: nat
    var currentCharIndex: nat

    /** The three state cells as a value. */
    function Snapshot(): State
      reads this
    {
      State(displayedTexts, currentTextIndex, currentCharIndex)
    }

    /** The invariant of the component. */
    predicate Valid()
      reads this
    {
      Consistent(texts, Snapshot())
    }

    /** Mounting: the state cells start empty. */
    constructor (texts: seq<string>)
      ensures this.texts == texts && Snapshot() == Initial() && Valid()
    {
      this.texts := texts;
      displayedTexts := [];
      currentTextIndex := 0;
      currentCharIndex := 0;
    }

    /** A new `texts` prop: all three cells go back to their start values. */
    method Reset(newTexts: seq<string>)
      modifies this
      ensures texts == newTexts && Snapshot() == Initial() && Valid()
    {
      texts := newTexts;
      displayedTexts := [];
      currentTextIndex := 0;
      currentCharIndex := 0;
    }

    /**
     * One firing of the step effect: the terminal guard comes before any read
     * of `texts[currentTextIndex]`; a reveal writes a copy of the slots and
     * bumps the character index; otherwise the text index advances.
     */
    method Step()
      modifies this
      ensures texts == old(texts)
      ensures Snapshot() == Next(texts, old(Snapshot()))
      ensures old(Valid()) ==> Valid()
    {
      if currentTextIndex < |texts| {
        var currentText := texts[currentTextIndex];
        if currentCharIndex < |currentText| {
          var newTexts := Spread(displayedTexts);
          if Falsy(newTexts, currentTextIndex) {
            newTexts := Put(newTexts, currentTextIndex, "");
          }
          newTexts := Put(newTexts, currentTextIndex, currentText[..currentCharIndex + 1]);
          displayedTexts := newTexts;
          currentCharIndex := currentCharIndex + 1;
        } else {
          currentTextIndex := currentTextIndex + 1;
          currentCharIndex := 0;
        }
      }
      if old(Valid()) {
        StepConsistent(texts, old(Snapshot()));
      }
    }

    /**
     * The effect firing again and again, with no change of `texts`, until
     * the terminal guard stops it. Returns the number of firings.
     */
    method Play() returns (steps: nat)
      modifies this
      ensures texts == old(texts)
      ensures steps == Remaining(texts, old(Snapshot()))
      ensures Snapshot() == Run(texts, old(Snapshot()), steps)
      ensures Terminal(texts, Snapshot())
      ensures old(Valid()) ==> Valid() && Done(texts, Snapshot())
    {
      ghost var start := Snapshot();
      steps := 0;
      while currentTextIndex < |texts|
        invariant texts == old(texts)
        invariant Snapshot() == Run(texts, start, steps)
        invariant steps + Remaining(texts, Snapshot()) == Remaining(texts, start)
        decreases Remaining(texts, Snapshot())
      {
        StepRemaining(texts, Snapshot());
        Step();
        RunStep(texts, start, steps);
        steps := steps + 1;
      }
      if Consistent(texts, start) {
        RunConsistent(texts, start, steps);
        RunToEnd(texts, start, steps);
      }
    }
  }
}
