/** Properties of the property-listing formatter: the buffer invariant, block
    bracketing, what header and numbered lines emit, how continuation lines
    are collected and where flushing inserts them, and what an unstructured
    reply comes out as. */
module FormatterProofs {
  import opened Text
  import opened Icons
  import opened Patterns
  import opened Transducer

  // ---------------------------------------------------------------------
  // The buffer invariant

  /** Every container is set right after a flush, and lines are buffered only
      while one is pending: a step keeps the buffer empty when nothing is
      pending. */
  lemma ApplyValid(st: State, k: Kind)
    requires Valid(st)
    ensures Valid(Apply(st, k).st)
  {
  }

  lemma StepValid(st: State, raw: string)
    requires Valid(st)
    ensures Valid(Step(st, raw).st)
  {
    ApplyValid(st, ClassifyLine(st.inBlock, Trim(raw)));
  }

  /** The invariant holds throughout the loop, from the initial state on. */
  lemma {:induction false} RunValid(st: State, lines: seq<string>)
    requires Valid(st)
    ensures Valid(Run(st, lines).st)
    decreases |lines|
  {
    if |lines| > 0 {
      StepValid(st, lines[0]);
      RunValid(Step(st, lines[0]).st, lines[1..]);
    }
  }

  /** Flushing emits the pending container exactly once, as one fragment, and
      leaves nothing pending or buffered; with nothing buffered the label-only
      container is emitted, not dropped. */
  lemma FlushOnce(st: State)
    requires Valid(st)
    ensures Flush(st).st == st.(pending := None, buffer := [])
    ensures |Flush(st).out| == (if st.pending.Some? then 1 else 0)
    ensures st.pending.Some? ==> Flush(st).out == [Flushed(st.pending.value, st.buffer)]
    ensures st.pending.Some? && st.buffer == [] ==> Render(Flush(st).out[0]) == Container(st.pending.value)
  {
  }

  // ---------------------------------------------------------------------
  // Block bracketing

  /** The block delimiters among the fragments, in order: `true` for an open,
      `false` for a close. */
  function Marks(fs: seq<Fragment>): seq<bool> {
    if |fs| == 0 then []
    else (if fs[0].ItemOpen? then [true] else if fs[0].ItemClose? then [false] else []) + Marks(fs[1..])
  }

  lemma {:induction false} MarksAppend(a: seq<Fragment>, b: seq<Fragment>)
    ensures Marks(a + b) == Marks(a) + Marks(b)
  {
    if |a| == 0 {
      assert a + b == b;
    } else {
      assert (a + b)[1..] == a[1..] + b;
      MarksAppend(a[1..], b);
    }
  }

  /** A line that opens a property block: a `### ` header or a numbered item. */
  predicate Opens(raw: string) {
    var line := Trim(raw);
    line != "" && (StartsWith(line, "### ") || IsNumbered(line))
  }

  /** How many lines open a block. */
  function OpeningLines(lines: seq<string>): nat {
    if |lines| == 0 then 0 else (if Opens(lines[0]) then 1 else 0) + OpeningLines(lines[1..])
  }

  /** `n` blocks, each opened and then closed: open, close, open, close, ... */
  function Pairs(n: nat): seq<bool> {
    if n == 0 then [] else Pairs(n - 1) + [true, false]
  }

  /** `n` blocks opened one after another: each closes the one before it,
      and the last is left open. */
  function Alt(n: nat): seq<bool> {
    if n == 0 then [] else [false, true] + Alt(n - 1)
  }

  /** The delimiters `n` opening lines emit, depending on whether a block is
      already open: with one open, each closes it and opens the next; with
      none, the first only opens. */
  function Delims(inBlock: bool, n: nat): seq<bool> {
    if inBlock then Alt(n) else if n == 0 then [] else [true] + Alt(n - 1)
  }

  lemma {:induction false} NoMarks(fs: seq<Fragment>)
    requires forall i :: 0 <= i < |fs| ==> !fs[i].ItemOpen? && !fs[i].ItemClose?
    ensures Marks(fs) == []
  {
    if |fs| > 0 {
      NoMarks(fs[1..]);
    }
  }

  /** A body line emits no delimiter and leaves the block flag alone. */
  lemma ApplyBodyNoMarks(st: State, b: Body)
    ensures Marks(ApplyBody(st, b).out) == []
    ensures ApplyBody(st, b).st.inBlock == st.inBlock
  {
    var e := ApplyBody(st, b);
    assert forall i :: 0 <= i < |e.out| ==> e.out[i].Feature? || e.out[i].Flushed? || e.out[i].SubItem? || e.out[i].Line?;
    NoMarks(e.out);
  }

  lemma OpenBlockMarks(st: State, title: string)
    ensures OpenBlock(st, title).st.inBlock
    ensures Marks(OpenBlock(st, title).out) == if st.inBlock then [false, true] else [true]
  {
    var f := Flush(st);
    var close: seq<Fragment> := if st.inBlock then [ItemClose] else [];
    NoMarks(f.out);
    NoMarks([ItemHeader(title)]);
    assert [ItemOpen, ItemHeader(title)][1..] == [ItemHeader(title)];
    assert Marks([ItemOpen, ItemHeader(title)]) == [true];
    assert Marks([ItemClose]) == [false] by {
      assert [ItemClose][1..] == [];
    }
    MarksAppend(f.out + close, [ItemOpen, ItemHeader(title)]);
    MarksAppend(f.out, close);
  }

  /** Whatever a line is recognised as, it opens a block exactly when it is a
      header or numbered item, closing the open one first if there is one;
      nothing else emits a delimiter or changes whether a block is open. */
  lemma ApplyMarks(st: State, k: Kind)
    ensures Apply(st, k).st.inBlock == (st.inBlock || k.Header? || k.Numbered?)
    ensures Marks(Apply(st, k).out) ==
      if k.Header? || k.Numbered? then (if st.inBlock then [false, true] else [true]) else []
  {
    match k
    case Blank =>
      NoMarks(Flush(st).out);
      NoMarks(Apply(st, k).out);
    case Header(title) =>
      OpenBlockMarks(st, title);
    case Numbered(rest) =>
      var o := OpenBlock(st, "Property Details");
      OpenBlockMarks(st, "Property Details");
      if rest.Some? {
        ApplyBodyNoMarks(o.st, rest.value);
        MarksAppend(o.out, ApplyBody(o.st, rest.value).out);
      }
    case Other(b) =>
      ApplyBodyNoMarks(st, b);
  }

  /** The lines recognised as opening a block are exactly the opening lines,
      whether or not a block is open. */
  lemma ClassifyOpens(inBlock: bool, raw: string)
    ensures var k := ClassifyLine(inBlock, Trim(raw)); k.Header? || k.Numbered? <==> Opens(raw)
  {
  }

  /** A step opens a block exactly on an opening line, closing the open one
      first if there is one; no other line emits a delimiter or changes
      whether a block is open. */
  lemma StepMarks(st: State, raw: string)
    ensures Step(st, raw).st.inBlock == (st.inBlock || Opens(raw))
    ensures Marks(Step(st, raw).out) == if Opens(raw) then (if st.inBlock then [false, true] else [true]) else []
  {
    ClassifyOpens(st.inBlock, raw);
    ApplyMarks(st, ClassifyLine(st.inBlock, Trim(raw)));
  }

  /** The loop's output is the first step's followed by the rest's. */
  lemma RunCons(st: State, lines: seq<string>)
    requires |lines| > 0
    ensures Run(st, lines).out == Step(st, lines[0]).out + Run(Step(st, lines[0]).st, lines[1..]).out
    ensures Run(st, lines).st == Run(Step(st, lines[0]).st, lines[1..]).st
  {
  }

  // ---------------------------------------------------------------------
  // The loop as a fold over recognised lines
  //
  // Only opening lines set the block flag and nothing clears it during the
  // loop, so the flag each line is recognised under is known from the lines
  // before it. That splits the loop into recognising every line and then
  // applying what was recognised, which is the form the properties below
  // are proved in.

  /** Every line recognised under the block flag it meets in the loop. */
  function Kinds(inBlock: bool, lines: seq<string>): (ks: seq<Kind>)
    ensures |ks| == |lines|
    decreases |lines|
  {
    if |lines| == 0 then []
    else [ClassifyLine(inBlock, Trim(lines[0]))] + Kinds(inBlock || Opens(lines[0]), lines[1..])
  }

  /** The loop over already-recognised lines. */
  function RunKinds(st: State, ks: seq<Kind>): Emit
    decreases |ks|
  {
    if |ks| == 0 then Emit(st, [])
    else
      var e := Apply(st, ks[0]);
      var r := RunKinds(e.st, ks[1..]);
      Emit(r.st, e.out + r.out)
  }

  lemma KindsCons(inBlock: bool, lines: seq<string>)
    requires |lines| > 0
    ensures Kinds(inBlock, lines)[0] == ClassifyLine(inBlock, Trim(lines[0]))
    ensures Kinds(inBlock, lines)[1..] == Kinds(inBlock || Opens(lines[0]), lines[1..])
  {
  }

  lemma StepBlock(st: State, raw: string)
    ensures Step(st, raw).st.inBlock == (st.inBlock || Opens(raw))
  {
    StepMarks(st, raw);
  }

  /** The formatter's loop and the fold over recognised lines agree. */
  lemma {:induction false} RunByKinds(st: State, lines: seq<string>)
    ensures Run(st, lines) == RunKinds(st, Kinds(st.inBlock, lines))
    decreases |lines|
  {
    if |lines| > 0 {
      var e := Step(st, lines[0]);
      StepBlock(st, lines[0]);
      KindsCons(st.inBlock, lines);
      RunByKinds(e.st, lines[1..]);
      RunCons(st, lines);
    }
  }

  /** How many recognised lines open a block. */
  function OpeningKinds(ks: seq<Kind>): nat {
    if |ks| == 0 then 0 else (if ks[0].Header? || ks[0].Numbered? then 1 else 0) + OpeningKinds(ks[1..])
  }

  lemma {:induction false} OpeningKindsOf(inBlock: bool, lines: seq<string>)
    ensures OpeningKinds(Kinds(inBlock, lines)) == OpeningLines(lines)
    decreases |lines|
  {
    if |lines| > 0 {
      KindsCons(inBlock, lines);
      ClassifyOpens(inBlock, lines[0]);
      OpeningKindsOf(inBlock || Opens(lines[0]), lines[1..]);
    }
  }

  /** One step of the delimiter count: the delimiters of a line that may
      open a block, followed by those of the rest from the flag it leaves. */
  lemma DelimsStep(inBlock: bool, opens: bool, n: nat)
    ensures (if opens then (if inBlock then [false, true] else [true]) else []) + Delims(inBlock || opens, n)
            == Delims(inBlock, (if opens then 1 else 0) + n)
  {
    if opens && !inBlock {
      assert Delims(true, n) == Alt(n);
    }
  }

  lemma RunKindsCons(st: State, ks: seq<Kind>)
    requires |ks| > 0
    ensures RunKinds(st, ks).out == Apply(st, ks[0]).out + RunKinds(Apply(st, ks[0]).st, ks[1..]).out
    ensures RunKinds(st, ks).st == RunKinds(Apply(st, ks[0]).st, ks[1..]).st
    ensures OpeningKinds(ks) == (if ks[0].Header? || ks[0].Numbered? then 1 else 0) + OpeningKinds(ks[1..])
  {
  }

  /** Over the loop a block is open at the end exactly when one was open at
      the start or some recognised line opens one. */
  lemma {:induction false} RunKindsBlock(st: State, ks: seq<Kind>)
    ensures RunKinds(st, ks).st.inBlock <==> st.inBlock || OpeningKinds(ks) >= 1
    decreases |ks|
  {
    if |ks| > 0 {
      ApplyMarks(st, ks[0]);
      RunKindsCons(st, ks);
      RunKindsBlock(Apply(st, ks[0]).st, ks[1..]);
    }
  }

  /** Over the loop the delimiters are exactly those of its opening lines:
      each closes the block before it, if any, and opens its own. */
  lemma {:induction false} RunKindsMarks(st: State, ks: seq<Kind>)
    ensures Marks(RunKinds(st, ks).out) == Delims(st.inBlock, OpeningKinds(ks))
    decreases |ks|
  {
    if |ks| > 0 {
      var e := Apply(st, ks[0]);
      var r := RunKinds(e.st, ks[1..]);
      var opens := ks[0].Header? || ks[0].Numbered?;
      var n := OpeningKinds(ks[1..]);
      ApplyMarks(st, ks[0]);
      RunKindsCons(st, ks);
      calc {
        Marks(RunKinds(st, ks).out);
        Marks(e.out + r.out);
        { MarksAppend(e.out, r.out); }
        Marks(e.out) + Marks(r.out);
        { RunKindsMarks(e.st, ks[1..]); }
        (if opens then (if st.inBlock then [false, true] else [true]) else []) + Delims(st.inBlock || opens, n);
        { DelimsStep(st.inBlock, opens, n); }
        Delims(st.inBlock, (if opens then 1 else 0) + n);
        { assert OpeningKinds(ks) == (if opens then 1 else 0) + n; }
        Delims(st.inBlock, OpeningKinds(ks));
      }
    } else {
      assert Marks(RunKinds(st, ks).out) == [];
    }
  }

  /** An open-only start, the pairs between, and the final close make whole
      pairs. */
  lemma {:induction false} ClosedPairs(n: nat)
    requires n >= 1
    ensures Delims(false, n) + [false] == Pairs(n)
  {
    if n >= 2 {
      var d := Delims(false, n - 1);
      assert d == [true] + Alt(n - 2);
      AltShift(n - 2);
      calc {
        Delims(false, n) + [false];
        [true] + (Alt(n - 2) + [false, true]) + [false];
        { AppendAssoc([true], Alt(n - 2), [false, true]); }
        d + [false, true] + [false];
        { AppendAssoc(d, [false, true], [false]);
          assert [false, true] + [false] == [false] + [true, false];
          AppendAssoc(d, [false], [true, false]); }
        d + [false] + [true, false];
        { ClosedPairs(n - 1); }
        Pairs(n - 1) + [true, false];
      }
    }
  }

  /** Pairs can be peeled off either end of an `Alt`. */
  lemma {:induction false} AltShift(n: nat)
    ensures Alt(n + 1) == Alt(n) + [false, true]
  {
    if n > 0 {
      AltShift(n - 1);
      assert Alt(n + 1) == [false, true] + Alt(n);
    }
  }

  /** Block opens and closes strictly alternate, never nest, and balance: the
      delimiters of the whole output are exactly one open and one close per
      header or numbered line, with the last block closed at end of input. */
  lemma Bracketing(text: string)
    ensures Marks(Fragments(text)) == Pairs(OpeningLines(Split(Bold(text), '\n')))
  {
    var lines := Split(Bold(text), '\n');
    var r := Run(Start, lines);
    var n := OpeningLines(lines);
    LoopMarks(lines);
    FinishMarks(r.st);
    MarksAppend(r.out, Finish(r.st).out);
    if n >= 1 {
      ClosedPairs(n);
    }
  }

  /** From the initial state, the loop opens one block per opening line and
      leaves the last one open. */
  lemma LoopMarks(lines: seq<string>)
    ensures Marks(Run(Start, lines).out) == Delims(false, OpeningLines(lines))
    ensures Run(Start, lines).st.inBlock <==> OpeningLines(lines) >= 1
  {
    RunByKinds(Start, lines);
    OpeningKindsOf(false, lines);
    RunKindsMarks(Start, Kinds(false, lines));
    RunKindsBlock(Start, Kinds(false, lines));
  }

  /** End of input closes the open block, if any, and emits no other
      delimiter. */
  lemma FinishMarks(st: State)
    ensures Marks(Finish(st).out) == if st.inBlock then [false] else []
  {
    NoMarks(Flush(st).out);
    assert Marks([ItemClose]) == [false] by {
      assert [ItemClose][1..] == [];
    }
    MarksAppend(Flush(st).out, if st.inBlock then [ItemClose] else []);
  }

  // ---------------------------------------------------------------------
  // Every recognised feature is emitted once

  /** How many fragments carry a feature: complete ones and flushed ones. */
  function Features(fs: seq<Fragment>): nat {
    if |fs| == 0 then 0 else (if fs[0].Feature? || fs[0].Flushed? then 1 else 0) + Features(fs[1..])
  }

  lemma {:induction false} FeaturesAppend(a: seq<Fragment>, b: seq<Fragment>)
    ensures Features(a + b) == Features(a) + Features(b)
  {
    if |a| == 0 {
      assert a + b == b;
    } else {
      assert (a + b)[1..] == a[1..] + b;
      FeaturesAppend(a[1..], b);
    }
  }

  /** A recognised line that starts a feature, on its own or after the
      numeral of a numbered item. */
  predicate FeatureKind(k: Kind) {
    (k.Other? && k.body.FeatureLine?) || (k.Numbered? && k.rest.Some? && k.rest.value.FeatureLine?)
  }

  function FeatureKinds(ks: seq<Kind>): nat {
    if |ks| == 0 then 0 else (if FeatureKind(ks[0]) then 1 else 0) + FeatureKinds(ks[1..])
  }

  /** The feature a state still holds back: one when a feature is pending. */
  function Held(st: State): nat {
    if st.pending.Some? then 1 else 0
  }

  /** Flushing emits the feature held back and holds none. */
  lemma FlushFeatures(st: State)
    ensures Features(Flush(st).out) == Held(st) && Held(Flush(st).st) == 0
  {
    if st.pending.Some? {
      assert Features([Flushed(st.pending.value, st.buffer)]) == 1;
    }
  }

  /** A body line emits or holds back exactly one feature more when it is a
      feature line, and otherwise passes the held-back one on or emits it. */
  lemma ApplyBodyFeatures(st: State, b: Body)
    ensures Features(ApplyBody(st, b).out) + Held(ApplyBody(st, b).st)
            == Held(st) + (if b.FeatureLine? then 1 else 0)
  {
    var f := Flush(st);
    FlushFeatures(st);
    match b
    case FeatureLine(title, icon, value) =>
      FeaturesAppend(f.out, [Feature(title, icon, value)]);
      assert Features([Feature(title, icon, value)]) == 1;
    case BulletLine(content) =>
      NoFeatures([SubItem(content)]);
    case ImageLine(text) =>
      FeaturesAppend(f.out, [Line(text)]);
      NoFeatures([Line(text)]);
    case TextLine(text) =>
      NoFeatures([Line(text)]);
  }

  /** Fragments that are neither features nor flushed features count zero. */
  lemma {:induction false} NoFeatures(fs: seq<Fragment>)
    requires forall i :: 0 <= i < |fs| ==> !fs[i].Feature? && !fs[i].Flushed?
    ensures Features(fs) == 0
  {
    if |fs| > 0 {
      NoFeatures(fs[1..]);
    }
  }

  /** Opening a block emits the held-back feature and holds none. */
  lemma OpenBlockFeatures(st: State, title: string)
    ensures Features(OpenBlock(st, title).out) == Held(st) && Held(OpenBlock(st, title).st) == 0
  {
    var f := Flush(st);
    var c: seq<Fragment> := if st.inBlock then [ItemClose] else [];
    FlushFeatures(st);
    NoFeatures(c);
    NoFeatures([ItemOpen, ItemHeader(title)]);
    FeaturesAppend(f.out, c);
    FeaturesAppend(f.out + c, [ItemOpen, ItemHeader(title)]);
  }

  /** One recognised line: what is emitted plus what is held back grows by
      one exactly on a feature line. */
  lemma ApplyFeatures(st: State, k: Kind)
    ensures Features(Apply(st, k).out) + Held(Apply(st, k).st) == Held(st) + (if FeatureKind(k) then 1 else 0)
  {
    match k
    case Blank =>
      if st.pending.None? {
        FlushFeatures(st);
        FeaturesAppend(Flush(st).out, [Break]);
        NoFeatures([Break]);
      }
    case Header(title) =>
      OpenBlockFeatures(st, title);
    case Numbered(rest) =>
      var o := OpenBlock(st, "Property Details");
      OpenBlockFeatures(st, "Property Details");
      if rest.Some? {
        var c := ApplyBody(o.st, rest.value);
        ApplyBodyFeatures(o.st, rest.value);
        FeaturesAppend(o.out, c.out);
      }
    case Other(b) =>
      ApplyBodyFeatures(st, b);
  }

  /** Over the loop, every recognised feature line is emitted or, for the
      last one, still held back. */
  lemma {:induction false} RunKindsFeatures(st: State, ks: seq<Kind>)
    ensures Features(RunKinds(st, ks).out) + Held(RunKinds(st, ks).st) == Held(st) + FeatureKinds(ks)
    decreases |ks|
  {
    if |ks| > 0 {
      var e := Apply(st, ks[0]);
      ApplyFeatures(st, ks[0]);
      RunKindsCons(st, ks);
      RunKindsFeatures(e.st, ks[1..]);
      FeaturesAppend(e.out, RunKinds(e.st, ks[1..]).out);
    }
  }

  /** End of input emits the feature held back, if any. */
  lemma FinishFeatures(st: State)
    ensures Features(Finish(st).out) == Held(st)
  {
    var c: seq<Fragment> := if st.inBlock then [ItemClose] else [];
    FlushFeatures(st);
    assert Features(c) == 0;
    FeaturesAppend(Flush(st).out, c);
  }

  /** No feature is lost: the output holds exactly one complete or flushed
      feature per recognised feature line, the last one pending included. */
  lemma FeaturesEmitted(text: string)
    ensures Features(Fragments(text)) == FeatureKinds(Kinds(false, Split(Bold(text), '\n')))
  {
    var lines := Split(Bold(text), '\n');
    var r := Run(Start, lines);
    RunByKinds(Start, lines);
    RunKindsFeatures(Start, Kinds(false, lines));
    FinishFeatures(r.st);
    FeaturesAppend(r.out, Finish(r.st).out);
  }

  // ---------------------------------------------------------------------
  // Opening lines

  /** A `### ` header flushes the pending feature, closes the open block if
      any, and opens a block headed by the rest of the line. */
  lemma HeaderLine(st: State, raw: string)
    requires Valid(st)
    requires StartsWith(Trim(raw), "### ")
    ensures Step(st, raw) == Emit(State(true, None, []),
      Flush(st).out + (if st.inBlock then [ItemClose] else []) + [ItemOpen, ItemHeader(Trim(raw)[4..])])
  {
    var line := Trim(raw);
    assert ClassifyLine(st.inBlock, line) == Header(line[4..]);
  }

  /** A numbered item does the same under the fixed header "Property Details",
      then handles what follows the numeral as a line inside the new block;
      that remainder is never empty, so the formatter's skip of an empty
      remainder is never taken. */
  lemma NumberedLine(st: State, raw: string)
    requires Valid(st)
    requires IsNumbered(Trim(raw))
    ensures StripNumber(Trim(raw)) != ""
    ensures Step(st, raw).st == ApplyBody(State(true, None, []), ClassifyBody(true, StripNumber(Trim(raw)))).st
    ensures Step(st, raw).out ==
      Flush(st).out + (if st.inBlock then [ItemClose] else []) + [ItemOpen, ItemHeader("Property Details")]
      + ApplyBody(State(true, None, []), ClassifyBody(true, StripNumber(Trim(raw)))).out
  {
    var line := Trim(raw);
    NumberedKind(st.inBlock, line);
    var b := ClassifyBody(true, StripNumber(line));
    assert Step(st, raw) == Apply(st, Numbered(Some(b)));
    NumberedApply(st, b);
  }

  /** A numbered item opens its block, then handles its remainder there. */
  lemma NumberedApply(st: State, b: Body)
    requires Valid(st)
    ensures Apply(st, Numbered(Some(b))).st == ApplyBody(State(true, None, []), b).st
    ensures Apply(st, Numbered(Some(b))).out ==
      Flush(st).out + (if st.inBlock then [ItemClose] else []) + [ItemOpen, ItemHeader("Property Details")]
      + ApplyBody(State(true, None, []), b).out
  {
    var o := OpenBlock(st, "Property Details");
    assert o.st == State(true, None, []);
  }

  /** A numbered line is recognised as a numbered item with a remainder. */
  lemma NumberedKind(inBlock: bool, line: string)
    requires Trimmed(line) && IsNumbered(line)
    ensures StripNumber(line) != ""
    ensures ClassifyLine(inBlock, line) == Numbered(Some(ClassifyBody(true, StripNumber(line))))
  {
    NumberedRemainder(line);
    NotHeader(line);
    var rest := StripNumber(line);
    assert line != "" && rest != "";
  }

  // ---------------------------------------------------------------------
  // Continuation lines

  /** A non-blank line that is neither an opening line, nor a bullet or
      `<strong>` label inside a block, nor a table label, nor an image line. */
  predicate Plain(inBlock: bool, line: string) {
    && line != ""
    && !StartsWith(line, "### ")
    && !IsNumbered(line)
    && !(StartsWith(line, "- ") && inBlock)
    && !(StrongLabel(line).Some? && inBlock)
    && KeyLabel(line).None?
    && !Contains(line, "![Image")
  }

  /** A plain line is recognised as text, and nothing else is. */
  lemma PlainIsText(inBlock: bool, line: string)
    requires Trimmed(line)
    ensures Plain(inBlock, line) <==> ClassifyLine(inBlock, line) == Other(TextLine(line))
  {
  }

  /** A blank line is recognised as blank and a plain one as text. */
  lemma PlainKind(inBlock: bool, line: string)
    requires Trimmed(line) && (line == "" || Plain(inBlock, line))
    ensures ClassifyLine(inBlock, line) == if line == "" then Blank else Other(TextLine(line))
  {
    if line != "" {
      PlainIsText(inBlock, line);
    }
  }

  /** While a feature is pending, blank and plain lines are appended to its
      buffer, trimmed, after the lines already there; nothing is emitted and
      in particular a blank line does not flush. */
  lemma PendingCollects(st: State, raw: string)
    requires st.pending.Some?
    requires Trim(raw) == "" || Plain(st.inBlock, Trim(raw))
    ensures Step(st, raw) == Emit(st.(buffer := st.buffer + [Trim(raw)]), [])
  {
    PlainKind(st.inBlock, Trim(raw));
    PlainStep(st, raw);
  }

  /** Outside a pending feature, a plain line is emitted verbatim and a blank
      line as a break, and the state does not change. */
  lemma FreeLine(st: State, raw: string)
    requires st.pending.None?
    requires Trim(raw) == "" || Plain(st.inBlock, Trim(raw))
    ensures Step(st, raw) == Emit(st, [if Trim(raw) == "" then Break else Line(Trim(raw))])
  {
    PlainKind(st.inBlock, Trim(raw));
    PlainStep(st, raw);
  }

  /** The step on a line recognised as blank or as text. */
  lemma PlainStep(st: State, raw: string)
    requires ClassifyLine(st.inBlock, Trim(raw)) == if Trim(raw) == "" then Blank else Other(TextLine(Trim(raw)))
    ensures st.pending.Some? ==> Step(st, raw) == Emit(st.(buffer := st.buffer + [Trim(raw)]), [])
    ensures st.pending.None? ==> Step(st, raw) == Emit(st, [if Trim(raw) == "" then Break else Line(Trim(raw))])
  {
    var t := Trim(raw);
    assert Step(st, raw) == Apply(st, if t == "" then Blank else Other(TextLine(t)));
    PlainApply(st, t);
  }

  /** A blank or text line is buffered while a feature is pending, and
      emitted as it is otherwise. */
  lemma PlainApply(st: State, t: string)
    ensures st.pending.Some? ==> Apply(st, if t == "" then Blank else Other(TextLine(t))) == Emit(st.(buffer := st.buffer + [t]), [])
    ensures st.pending.None? ==> Apply(st, if t == "" then Blank else Other(TextLine(t))) == Emit(st, [if t == "" then Break else Line(t)])
  {
    if st.pending.None? {
      assert Flush(st) == Emit(st, []);
    }
  }

  /** Inside a block a `- ` line is recognised as a bullet whatever else it
      holds: the bullet test comes before the `<strong>`, table-label and
      image tests. */
  lemma BulletKind(line: string)
    requires Trimmed(line) && StartsWith(line, "- ")
    ensures ClassifyLine(true, line) == Other(BulletBody(Trim(line[2..])))
  {
    OtherKind(true, line);
  }

  /** A bullet's feature splits its content at the first colon: the label
      is the non-empty, colon-free text before it and the value is the rest,
      trimmed. A bullet without such a colon keeps its whole content. */
  lemma BulletSplit(content: string)
    ensures BulletBody(content).FeatureLine? ==> BulletBody(content).title != "" && ':' !in BulletBody(content).title
    ensures BulletBody(content).FeatureLine? ==>
      content == BulletBody(content).title + ":" + content[|BulletBody(content).title| + 1..]
    ensures BulletBody(content).FeatureLine? ==> BulletBody(content).value == Trim(content[|BulletBody(content).title| + 1..])
    ensures BulletBody(content).BulletLine? ==> BulletBody(content).content == content
    ensures BulletBody(content).BulletLine? ==> ':' !in content || content[0] == ':'
  {
    match Find(content, ":")
    case Some(ci) =>
      assert content[ci] == ':' by {
        assert content[ci..ci + 1] == ":";
      }
      if ci > 0 {
        var title := content[..ci];
        assert BulletBody(content) == FeatureLine(title, Lookup(Lower(Trim(title))), Trim(content[ci + 1..]));
        CharAbsentBefore(content, ':', ci);
        SplitAround(content, ci);
      }
    case None =>
      CharAbsentBefore(content, ':', |content|);
      assert content[..|content|] == content;
  }

  /** A line starting with neither a digit nor `#` is recognised by its
      body alone. */
  lemma OtherKind(inBlock: bool, line: string)
    requires line != "" && !IsDigit(line[0]) && line[0] != '#'
    ensures ClassifyLine(inBlock, line) == Other(ClassifyBody(inBlock, line))
  {
    NotHeader(line);
    assert DigitRun(line) == 0;
  }

  /** A line whose first character is not `#` is no `### ` header. */
  lemma NotHeader(line: string)
    requires line != "" && line[0] != '#'
    ensures !StartsWith(line, "### ")
  {
    if |line| >= 4 {
      assert line[..4][0] == line[0];
    }
  }

  /** A colon-less bullet is appended as `• content` while a feature is
      pending, and is a standalone sub-item otherwise. */
  lemma BulletApplied(st: State, content: string)
    ensures ApplyBody(st, BulletLine(content)) ==
      if st.pending.Some? then Emit(st.(buffer := st.buffer + ["\U{2022} " + content]), [])
      else Emit(st, [SubItem(content)])
  {
  }

  /** A recognised feature flushes the pending one; it is emitted at once when
      its value is non-empty and becomes the pending feature, with an empty
      buffer, otherwise. */
  lemma FeatureApplied(st: State, title: string, icon: Icon, value: string)
    requires Valid(st)
    ensures ApplyBody(st, FeatureLine(title, icon, value)) ==
      if value != "" then Emit(st.(pending := None, buffer := []), Flush(st).out + [Feature(title, icon, value)])
      else Emit(st.(pending := Some(Pending(title, icon)), buffer := []), Flush(st).out)
  {
  }

  // ---------------------------------------------------------------------
  // Where flushing puts the buffered lines

  /** Every `<` is followed two characters later, still inside `s`, by
      something other than `d`; so no `</div>` starts inside `s`. */
  predicate Guarded(s: string) {
    forall j :: 0 <= j < |s| && s[j] == '<' ==> j + 2 < |s| && s[j + 2] != 'd'
  }

  lemma GuardedConcat(a: string, b: string)
    requires Guarded(a) && Guarded(b)
    ensures Guarded(a + b)
  {
    forall j | 0 <= j < |a + b| && (a + b)[j] == '<'
      ensures j + 2 < |a + b| && (a + b)[j + 2] != 'd'
    {
      if j < |a| {
        assert a[j] == '<';
      } else {
        assert b[j - |a|] == '<';
      }
    }
  }

  lemma GlyphGuarded(i: Icon)
    ensures Guarded(Glyph(i))
  {
  }

  /** The markup before a feature's label holds no `</div>`. */
  lemma HeadGuarded(icon: Icon)
    ensures Guarded(FeatureHead(icon))
  {
    var a := "<div class=\"property-feature" + (if IsContact(icon) then " contact-info" else "") + "\">";
    var b := "<span class=\"feature-icon\">";
    var c := "</span><strong>";
    assert Guarded(a);
    assert Guarded(b);
    assert Guarded(c);
    GlyphGuarded(icon);
    GuardedConcat(a, b);
    GuardedConcat(a + b, Glyph(icon));
    GuardedConcat(a + b + Glyph(icon), c);
  }

  /** No `</div>` starts inside a guarded part of a string. */
  lemma GuardedNoClose(s: string, off: nat, part: string, j: nat)
    requires off + |part| <= |s| && s[off..off + |part|] == part && Guarded(part)
    requires off <= j < off + |part|
    ensures !OccursAt(s, "</div>", j)
  {
    if j + 6 <= |s| {
      assert s[j..j + 6][0] == s[j] == part[j - off];
      if s[j] == '<' {
        assert s[j..j + 6][2] == s[j + 2] == part[j - off + 2];
      }
    }
  }

  /** An occurrence inside a part of a string is an occurrence in the part. */
  lemma OccursInPart(s: string, off: nat, part: string, j: nat)
    requires off + |part| <= |s| && s[off..off + |part|] == part
    requires off <= j && j + 6 <= off + |part|
    ensures OccursAt(s, "</div>", j) <==> OccursAt(part, "</div>", j - off)
  {
    SliceOfSlice(s, off, off + |part|, j - off, j - off + 6);
  }

  /** How `head + t + ":</strong>" + "</div>"` splits back into its parts. */
  lemma LabelParts(head: string, t: string)
    ensures |head + t + ":</strong>" + "</div>"| == |head| + |t| + 16
    ensures (head + t + ":</strong>" + "</div>")[..|head|] == head
    ensures (head + t + ":</strong>" + "</div>")[|head|..|head| + |t|] == t
    ensures (head + t + ":</strong>" + "</div>")[|head| + |t|..|head| + |t| + 10] == ":</strong>"
    ensures (head + t + ":</strong>" + "</div>")[|head| + |t| + 10..] == "</div>"
  {
  }

  /** A window that covers a `:` holds no `</div>`. */
  lemma ColonNoClose(s: string, m: nat, j: nat)
    requires j < m < j + 6 <= |s| && s[m] == ':'
    ensures !OccursAt(s, "</div>", j)
  {
    var d := "</div>";
    assert s[j..j + 6][m - j] == ':';
    assert forall i :: 0 <= i < 6 ==> d[i] != ':';
  }

  /** Where `replace` finds the first `</div>` of a container: its own
      closing tag when the title holds none, otherwise the title's own first
      `</div>`, so that the buffered lines then land inside the label. */
  lemma ContainerCloses(p: Pending)
    ensures !Contains(p.title, "</div>") ==>
      Find(Container(p), "</div>") == Some(|FeatureOpen(p.title, p.icon)|)
    ensures Contains(p.title, "</div>") ==>
      Find(Container(p), "</div>") == Some(|FeatureHead(p.icon)| + Find(p.title, "</div>").value)
  {
    ClosesAtOwnTag(p);
    ClosesInTitle(p);
  }

  /** Without `</div>` in the title, the first one is the container's own. */
  lemma ClosesAtOwnTag(p: Pending)
    ensures !Contains(p.title, "</div>") ==>
      Find(Container(p), "</div>") == Some(|FeatureOpen(p.title, p.icon)|)
  {
    if Find(p.title, "</div>").None? {
      ContainerClosesOwn(p);
    }
  }

  /** With `</div>` in the title, the first one is the title's own first. */
  lemma ClosesInTitle(p: Pending)
    ensures Contains(p.title, "</div>") ==>
      Find(Container(p), "</div>") == Some(|FeatureHead(p.icon)| + Find(p.title, "</div>").value)
  {
    HeadGuarded(p.icon);
    ContainerShape(p);
    FirstCloseInTitle(FeatureHead(p.icon), p.title);
  }

  lemma FirstCloseInTitle(head: string, t: string)
    requires Guarded(head)
    ensures Contains(t, "</div>") ==> Find(head + t + ":</strong>" + "</div>", "</div>").Some?
    ensures Contains(t, "</div>") ==>
      Find(head + t + ":</strong>" + "</div>", "</div>").value == |head| + Find(t, "</div>").value
  {
    if Contains(t, "</div>") {
      FirstCloseInLabel(head, t, Find(t, "</div>").value);
    }
  }

  lemma ContainerClosesOwn(p: Pending)
    requires forall j :: !OccursAt(p.title, "</div>", j)
    ensures Find(Container(p), "</div>") == Some(|FeatureOpen(p.title, p.icon)|)
  {
    HeadGuarded(p.icon);
    assert FeatureOpen(p.title, p.icon) == FeatureHead(p.icon) + p.title + ":</strong>";
    ClosesAfterLabel(FeatureHead(p.icon), p.title);
  }

  lemma ClosesAfterLabel(head: string, t: string)
    requires Guarded(head) && !Contains(t, "</div>")
    ensures Find(head + t + ":</strong>" + "</div>", "</div>") == Some(|head + t + ":</strong>"|)
  {
    NoCloseAfterLabel(head, t);
  }

  /** With no `</div>` in the title, the container's own closing tag is the
      first `</div>` in it. */
  lemma NoCloseAfterLabel(head: string, t: string)
    requires Guarded(head) && forall j :: !OccursAt(t, "</div>", j)
    ensures Find(head + t + ":</strong>" + "</div>", "</div>") == Some(|head + t + ":</strong>"|)
  {
    var s := head + t + ":</strong>" + "</div>";
    var n := |head|;
    var m := n + |t|;
    LabelParts(head, t);
    assert Guarded(":</strong>");
    forall j | 0 <= j < m + 10
      ensures !OccursAt(s, "</div>", j)
    {
      if j < n {
        GuardedNoClose(s, 0, head, j);
      } else if j >= m {
        GuardedNoClose(s, m, ":</strong>", j);
      } else if j + 6 <= m {
        OccursInPart(s, n, t, j);
      } else {
        assert s[m] == ":</strong>"[0];
        ColonNoClose(s, m, j);
      }
    }
    FindFirst(s, "</div>", m + 10);
  }

  /** The first `</div>` of the title is the first of the whole container. */
  lemma FirstCloseInLabel(head: string, t: string, k: nat)
    requires Guarded(head) && OccursAt(t, "</div>", k)
    requires forall j :: 0 <= j < k ==> !OccursAt(t, "</div>", j)
    ensures Find(head + t + ":</strong>" + "</div>", "</div>").Some?
    ensures Find(head + t + ":</strong>" + "</div>", "</div>").value == |head| + k
  {
    var s := head + t + ":</strong>" + "</div>";
    var n := |head|;
    LabelParts(head, t);
    OccursInPart(s, n, t, n + k);
    forall j | 0 <= j < n + k
      ensures !OccursAt(s, "</div>", j)
    {
      if j < n {
        GuardedNoClose(s, 0, head, j);
      } else {
        OccursInPart(s, n, t, j);
      }
    }
    FindFirst(s, "</div>", n + k);
  }

  /** The flush the formatter intends puts the buffered lines c1..cn, joined
      as ` c1<br>...<br>cn`, right after the feature's label and before its
      closing tag, verbatim: no contact formatting even for an e-mail or
      phone feature. */
  lemma FillIntendedInsertsRaw(p: Pending, buffer: seq<string>)
    requires buffer != [] && !Contains(p.title, "</div>")
    ensures FillIntended(p, buffer) == FeatureOpen(p.title, p.icon) + " " + Join(buffer, "<br>") + "</div>"
  {
    var h := FeatureOpen(p.title, p.icon);
    var c := Container(p);
    ContainerCloses(p);
    AppendSlices(h, "</div>");
    assert c[|h| + 6..] == c[|h|..][6..];
  }

  /** A title that itself holds `</div>`, first at `k`, takes the buffered
      lines there: they land inside the label, and the container keeps its
      closing tag after the label. */
  lemma FillIntendedInLabel(p: Pending, buffer: seq<string>, k: nat)
    requires buffer != [] && OccursAt(p.title, "</div>", k)
    requires forall j :: 0 <= j < k ==> !OccursAt(p.title, "</div>", j)
    ensures FillIntended(p, buffer) ==
      FeatureHead(p.icon) + p.title[..k] + (" " + Join(buffer, "<br>") + "</div>")
      + p.title[k + 6..] + ":</strong>" + "</div>"
  {
    HeadGuarded(p.icon);
    ContainerShape(p);
    ReplaceInLabel(FeatureHead(p.icon), p.title, k, " " + Join(buffer, "<br>") + "</div>");
  }

  lemma ReplaceInLabel(head: string, t: string, k: nat, rep: string)
    requires Guarded(head) && OccursAt(t, "</div>", k)
    requires forall j :: 0 <= j < k ==> !OccursAt(t, "</div>", j)
    ensures ReplaceFirst(head + t + ":</strong>" + "</div>", "</div>", rep)
            == head + t[..k] + rep + t[k + 6..] + ":</strong>" + "</div>"
  {
    FirstCloseInLabel(head, t, k);
    SpliceInLabel(head, t, k, rep);
  }

  /** A container is the feature head, the title, `:</strong>` and `</div>`. */
  lemma ContainerShape(p: Pending)
    ensures Container(p) == FeatureHead(p.icon) + p.title + ":</strong>" + "</div>"
  {
  }

  /** Replacing the six characters at `k` of the title in
      `head + t + ":</strong>" + "</div>"`. */
  lemma SpliceInLabel(head: string, t: string, k: nat, rep: string)
    requires k + 6 <= |t|
    ensures (head + t + ":</strong>" + "</div>")[..|head| + k] + rep
            + (head + t + ":</strong>" + "</div>")[|head| + k + 6..]
            == head + t[..k] + rep + t[k + 6..] + ":</strong>" + "</div>"
  {
    var s := head + t + ":</strong>" + "</div>";
    assert s[..|head| + k] == head + t[..k];
    assert s[|head| + k + 6..] == t[k + 6..] + ":</strong>" + "</div>";
  }

  /** As written, the flush does the same as long as no buffered line holds
      a `$` followed by `$`, `&`, a backquote or a quote. */
  lemma FillInsertsRaw(p: Pending, buffer: seq<string>)
    requires buffer != [] && !Contains(p.title, "</div>")
    requires forall k :: 0 <= k < |buffer| ==> Inert(buffer[k])
    ensures Fill(p, buffer) == FeatureOpen(p.title, p.icon) + " " + Join(buffer, "<br>") + "</div>"
  {
    FillAgreesWhenInert(p, buffer);
    FillIntendedInsertsRaw(p, buffer);
  }

  /** Whatever the title, the flush as written and the intended one agree
      when no buffered line holds a template mark. */
  lemma FillAgreesWhenInert(p: Pending, buffer: seq<string>)
    requires forall k :: 0 <= k < |buffer| ==> Inert(buffer[k])
    ensures Fill(p, buffer) == FillIntended(p, buffer)
  {
    if buffer != [] {
      InertTemplate(buffer);
      ReplaceInert(Container(p), "</div>", " " + Join(buffer, "<br>") + "</div>");
    }
  }

  /** The template a flush of inert lines builds is inert. */
  lemma InertTemplate(buffer: seq<string>)
    requires forall k :: 0 <= k < |buffer| ==> Inert(buffer[k])
    ensures Inert(" " + Join(buffer, "<br>") + "</div>")
  {
    var j := Join(buffer, "<br>");
    assert Inert(" " + j) by {
      InertJoin(buffer);
      InertAppend(" ", j);
    }
    InertCloseTag();
    InertAppend(" " + j, "</div>");
  }

  /** The closing tag is an inert template starting with `<`. */
  lemma InertCloseTag()
    ensures Inert("</div>") && !IsTemplateMark(("</div>")[0])
  {
    var t := "</div>";
    forall i | 0 <= i < |t| - 1
      ensures t[i] != '$'
    {
    }
  }

  /** A buffered line `$&` is not copied: the template expansion puts the
      matched `</div>` in its place, so the feature comes out closed twice,
      where the intended flush shows the two characters. */
  lemma FillExpandsMatch(p: Pending)
    requires !Contains(p.title, "</div>")
    ensures Fill(p, ["$&"]) == FeatureOpen(p.title, p.icon) + " " + "</div>" + "</div>"
    ensures FillIntended(p, ["$&"]) == FeatureOpen(p.title, p.icon) + " $&</div>"
  {
    var h := FeatureOpen(p.title, p.icon);
    var rep := " " + Join(["$&"], "<br>") + "</div>";
    DollarTemplate();
    assert FillIntended(p, ["$&"]) == h + rep by {
      FillIntendedInsertsRaw(p, ["$&"]);
    }
    assert Fill(p, ["$&"]) == h + Expand(rep, "</div>", h, "") by {
      ReplaceContainer(p, rep);
    }
    ExpandMatch(h);
    AppendAssoc(h, " " + "</div>", "</div>");
    AppendAssoc(h, " ", "</div>");
  }

  /** The template a flush of the single line `$&` builds. */
  lemma DollarTemplate()
    ensures " " + Join(["$&"], "<br>") + "</div>" == " $&</div>"
  {
    assert Join(["$&"], "<br>") == "$&";
  }

  /** Replacing the first `</div>` of a container whose title holds none
      expands the template right after the feature's label. */
  lemma ReplaceContainer(p: Pending, rep: string)
    requires !Contains(p.title, "</div>")
    ensures Replace(Container(p), "</div>", rep) == FeatureOpen(p.title, p.icon) + Expand(rep, "</div>", FeatureOpen(p.title, p.icon), "")
  {
    var h := FeatureOpen(p.title, p.icon);
    var c := Container(p);
    ContainerCloses(p);
    AppendSlices(h, "</div>");
    assert c[|h| + 6..] == c[|h|..][6..];
  }

  /** The template ` $&</div>` expands, against a `</div>` match, to the
      match twice over. */
  lemma ExpandMatch(before: string)
    ensures Expand(" $&</div>", "</div>", before, "") == " " + "</div>" + "</div>"
  {
    var tail := "</div>";
    assert Expand(tail, tail, before, "") == tail by {
      ExpandInert(tail, tail, before, "");
    }
    ExpandMatchMark(tail, tail, before, "");
    assert " $&" + tail == " $&</div>";
  }

  /** The template ` $&` followed by `t` expands to a space, the match, and
      the expansion of `t`. */
  lemma ExpandMatchMark(t: string, matched: string, before: string, after: string)
    ensures Expand(" $&" + t, matched, before, after) == " " + matched + Expand(t, matched, before, after)
  {
    var rep := " $&" + t;
    assert rep[1..] == "$&" + t;
    assert rep[1..][2..] == t;
  }

  /** Two inert templates stay inert when joined, unless the first ends in
      `$` and the second starts with a template mark. */
  lemma InertAppend(a: string, b: string)
    requires Inert(a) && Inert(b)
    requires a == [] || b == [] || a[|a| - 1] != '$' || !IsTemplateMark(b[0])
    ensures Inert(a + b)
  {
    var s := a + b;
    forall i | 0 <= i < |s| - 1 && s[i] == '$'
      ensures !IsTemplateMark(s[i + 1])
    {
      if i + 1 < |a| {
        assert s[i] == a[i] && s[i + 1] == a[i + 1];
      } else if i + 1 == |a| {
        assert s[i + 1] == b[0];
      } else {
        assert s[i] == b[i - |a|] && s[i + 1] == b[i + 1 - |a|];
      }
    }
  }

  /** Inert lines joined by `<br>` make an inert template. */
  lemma {:induction false} InertJoin(parts: seq<string>)
    requires forall k :: 0 <= k < |parts| ==> Inert(parts[k])
    ensures Inert(Join(parts, "<br>"))
    decreases |parts|
  {
    if |parts| > 1 {
      InertJoin(parts[1..]);
      InertAppend(parts[0], "<br>");
      InertAppend(parts[0] + "<br>", Join(parts[1..], "<br>"));
    } else if |parts| == 1 {
      assert Join(parts, "<br>") == parts[0];
    }
  }

  // ---------------------------------------------------------------------
  // Unstructured replies

  function TrimAll(lines: seq<string>): (r: seq<string>)
    ensures |r| == |lines| && forall i :: 0 <= i < |lines| ==> r[i] == Trim(lines[i])
  {
    seq(|lines|, i requires 0 <= i < |lines| => Trim(lines[i]))
  }

  /** A blank or plain line: one that neither opens a block nor starts a
      feature. */
  predicate Free(line: string) {
    line == "" || Plain(false, line)
  }

  /** What a blank line (a break) or a plain line (itself) shows as. */
  function Shown(ts: seq<string>): (r: seq<string>)
    ensures |r| == |ts| && forall i :: 0 <= i < |ts| ==> r[i] == if ts[i] == "" then "<br>" else ts[i]
  {
    seq(|ts|, i requires 0 <= i < |ts| => if ts[i] == "" then "<br>" else ts[i])
  }

  /** The fragment a blank or plain line is emitted as outside any block. */
  function FreeFragment(t: string): Fragment {
    if t == "" then Break else Line(t)
  }

  function FreeFragments(ts: seq<string>): (r: seq<Fragment>)
    ensures |r| == |ts| && forall i :: 0 <= i < |ts| ==> r[i] == FreeFragment(ts[i])
  {
    seq(|ts|, i requires 0 <= i < |ts| => FreeFragment(ts[i]))
  }

  /** What a blank or plain line is recognised as. */
  function FreeKind(t: string): Kind {
    if t == "" then Blank else Other(TextLine(t))
  }

  function FreeKinds(ts: seq<string>): (ks: seq<Kind>)
    ensures |ks| == |ts| && forall i :: 0 <= i < |ts| ==> ks[i] == FreeKind(ts[i])
  {
    seq(|ts|, i requires 0 <= i < |ts| => FreeKind(ts[i]))
  }

  /** A blank or plain line opens no block and is recognised as blank or as
      text. */
  lemma FreeHead(raw: string)
    requires Free(Trim(raw))
    ensures !Opens(raw)
    ensures ClassifyLine(false, Trim(raw)) == FreeKind(Trim(raw))
  {
    PlainKind(false, Trim(raw));
  }

  /** Outside any block, blank and plain lines are recognised one by one. */
  lemma {:induction false} KindsFree(lines: seq<string>)
    requires forall i :: 0 <= i < |lines| ==> Free(Trim(lines[i]))
    ensures Kinds(false, lines) == FreeKinds(TrimAll(lines))
    decreases |lines|
  {
    if |lines| > 0 {
      FreeHead(lines[0]);
      KindsCons(false, lines);
      KindsFree(lines[1..]);
      FreeKindsTail(lines);
    }
  }

  lemma FreeKindsTail(lines: seq<string>)
    requires |lines| > 0
    ensures FreeKinds(TrimAll(lines))[0] == FreeKind(Trim(lines[0]))
    ensures FreeKinds(TrimAll(lines))[1..] == FreeKinds(TrimAll(lines[1..]))
  {
    assert TrimAll(lines)[1..] == TrimAll(lines[1..]);
  }

  /** Outside any block with nothing pending, blank and text lines are
      emitted one fragment each, and the state never changes. */
  lemma {:induction false} RunKindsFree(ts: seq<string>)
    ensures RunKinds(Start, FreeKinds(ts)) == Emit(Start, FreeFragments(ts))
    decreases |ts|
  {
    if |ts| > 0 {
      var ks := FreeKinds(ts);
      assert ks[0] == FreeKind(ts[0]);
      assert ks[1..] == FreeKinds(ts[1..]);
      RunKindsFree(ts[1..]);
      FreeApply(ts[0]);
      RunKindsCons(Start, ks);
      assert FreeFragments(ts) == [FreeFragment(ts[0])] + FreeFragments(ts[1..]);
    }
  }

  lemma FreeApply(t: string)
    ensures Apply(Start, FreeKind(t)) == Emit(Start, [FreeFragment(t)])
  {
  }

  /** Outside any block with nothing pending, blank lines become breaks and
      plain lines are emitted trimmed and verbatim, and the state never
      changes. */
  lemma RunFree(lines: seq<string>)
    requires forall i :: 0 <= i < |lines| ==> Free(Trim(lines[i]))
    ensures Run(Start, lines) == Emit(Start, FreeFragments(TrimAll(lines)))
  {
    RunByKinds(Start, lines);
    KindsFree(lines);
    RunKindsFree(TrimAll(lines));
  }

  lemma {:induction false} RenderFree(ts: seq<string>)
    ensures RenderAll(FreeFragments(ts)) == Join(Shown(ts), "")
    decreases |ts|
  {
    if |ts| > 0 {
      assert FreeFragments(ts)[1..] == FreeFragments(ts[1..]);
      assert Shown(ts)[1..] == Shown(ts[1..]);
      RenderFree(ts[1..]);
    }
  }

  /** A reply with no structure is emitted as one fragment per line: a
      break for a blank line, the trimmed line otherwise. */
  lemma PlainFragments(text: string)
    requires forall line <- Split(Bold(text), '\n') :: Free(Trim(line))
    ensures Fragments(text) == FreeFragments(TrimAll(Split(Bold(text), '\n')))
  {
    var lines := Split(Bold(text), '\n');
    assert forall i :: 0 <= i < |lines| ==> Free(Trim(lines[i])) by {
      forall i | 0 <= i < |lines| ensures Free(Trim(lines[i])) {
        assert lines[i] in lines;
      }
    }
    RunFree(lines);
    assert Finish(Start).out == [];
    assert Fragments(text) == FreeFragments(TrimAll(lines)) + [];
  }

  /** A reply with no structure comes out as its lines, bold-substituted and
      trimmed, with each blank line replaced by a break, concatenated with no
      separator: the line breaks themselves are dropped. */
  lemma PlainText(text: string)
    requires forall line <- Split(Bold(text), '\n') :: Free(Trim(line))
    ensures Format(text) == Join(Shown(TrimAll(Split(Bold(text), '\n'))), "")
  {
    PlainFragments(text);
    RenderFree(TrimAll(Split(Bold(text), '\n')));
  }
}
