/** Hand-written matchers for the regular expressions the property formatter
    uses, each with the ECMAScript semantics of its pattern: lazy and greedy
    quantifiers, `.` refusing line terminators, the `i` flag folding ASCII
    letters only (which is what a non-Unicode ECMAScript regex does for an
    ASCII pattern), and leftmost-first matching. */
module Patterns {
  import opened Text
  import opened Icons
  import Drive

  // ---------------------------------------------------------------------
  // `text.replace(/\*\*(.*?)\*\*/g, '<strong>$1</strong>')`

  /** No line terminator lies in `s[k..i]`: `.` can cover that span. */
  predicate LineFree(s: string, k: int, i: int) {
    forall j :: k <= j < i && 0 <= j < |s| ==> !IsLineTerminator(s[j])
  }

  /** The lazy `(.*?)\*\*` from index `k`: the first `**` at or after `k` that
      no line terminator precedes. */
  function CloseStars(s: string, k: nat): (r: Option<nat>)
    ensures r.Some? ==> k <= r.value && r.value + 2 <= |s| && s[r.value] == '*' && s[r.value + 1] == '*'
    ensures r.Some? ==> forall i :: k <= i < r.value ==> !IsLineTerminator(s[i])
    ensures r.Some? ==> forall i :: k <= i < r.value ==> !(s[i] == '*' && s[i + 1] == '*')
    ensures r.None? ==> forall i :: k <= i && i + 1 < |s| && LineFree(s, k, i) ==> !(s[i] == '*' && s[i + 1] == '*')
    decreases |s| - k
  {
    if k + 2 > |s| then None
    else if s[k] == '*' && s[k + 1] == '*' then Some(k)
    else if IsLineTerminator(s[k]) then None
    else CloseStars(s, k + 1)
  }

  /** The closing point is the first `**` from `k` on, when no line
      terminator comes before it. */
  lemma {:induction false} CloseStarsAt(s: string, k: nat, e: nat)
    requires k <= e && e + 2 <= |s| && s[e] == '*' && s[e + 1] == '*'
    requires forall i :: k <= i < e ==> !IsLineTerminator(s[i]) && !(s[i] == '*' && s[i + 1] == '*')
    ensures CloseStars(s, k) == Some(e)
    decreases e - k
  {
    if k < e {
      CloseStarsAt(s, k + 1, e);
    }
  }

  /** `s` begins with `**`. */
  predicate OpensStars(s: string) {
    |s| >= 2 && s[0] == '*' && s[1] == '*'
  }

  /** One step of the bold pass at the start of `s`: how many characters it
      consumes and what it emits for them. A `**x**` match is consumed whole
      and emitted as `<strong>x</strong>`; otherwise one character is copied. */
  function BoldHead(s: string): (h: (nat, string))
    requires |s| > 0
    ensures 0 < h.0 <= |s|
  {
    if OpensStars(s) && CloseStars(s, 2).Some? then
      var j := CloseStars(s, 2).value;
      (j + 2, "<strong>" + s[2..j] + "</strong>")
    else (1, [s[0]])
  }

  /** The bold pass: every `**x**` becomes `<strong>x</strong>`, scanning left
      to right and resuming after each match. */
  function Bold(s: string): string
    decreases |s|
  {
    if |s| == 0 then ""
    else
      var h := BoldHead(s);
      h.1 + Bold(s[h.0..])
  }

  predicate NoStarPair(s: string) {
    forall i :: 0 <= i < |s| - 1 ==> !(s[i] == '*' && s[i + 1] == '*')
  }

  /** Text without a `**` pair passes through the bold pass unchanged. */
  lemma {:induction false} BoldIdentity(s: string)
    requires NoStarPair(s)
    ensures Bold(s) == s
  {
    if |s| > 0 {
      assert !OpensStars(s) by {
        if |s| >= 2 {
          assert !(s[0] == '*' && s[1] == '*');
        }
      }
      assert NoStarPair(s[1..]) by {
        forall i | 0 <= i < |s[1..]| - 1
          ensures !(s[1..][i] == '*' && s[1..][i + 1] == '*')
        {
          assert s[1..][i] == s[i + 1] && s[1..][i + 1] == s[i + 2];
        }
      }
      BoldIdentity(s[1..]);
      assert [s[0]] + s[1..] == s;
    }
  }

  /** A closing `**` search inside `a` never looks past a newline that ends it. */
  lemma CloseStarsStopsAtNewline(a: string, b: string, k: nat)
    requires k <= |a|
    ensures CloseStars(a + "\n" + b, k) == CloseStars(a, k)
  {
    var s := a + "\n" + b;
    match CloseStars(a, k)
    case Some(e) =>
      forall i | k <= i < e
        ensures !IsLineTerminator(s[i]) && !(s[i] == '*' && s[i + 1] == '*')
      {
        assert s[i] == a[i] && s[i + 1] == a[i + 1];
      }
      assert s[e] == a[e] && s[e + 1] == a[e + 1];
      CloseStarsAt(s, k, e);
    case None =>
      forall i | k <= i && i + 1 < |s| && LineFree(s, k, i)
        ensures !(s[i] == '*' && s[i + 1] == '*')
      {
        if i + 1 < |a| {
          forall j | k <= j < i && 0 <= j < |a|
            ensures !IsLineTerminator(a[j])
          {
            assert a[j] == s[j];
          }
          assert s[i] == a[i] && s[i + 1] == a[i + 1];
        } else {
          assert s[|a|] == '\n';
        }
      }
  }

  /** A `**x**` pair at the start of a text becomes `<strong>x</strong>`
      when `x` holds no line terminator and no `**` ends inside `x` or on
      its last character; the pass then resumes right after the pair. */
  lemma BoldPair(x: string, rest: string)
    requires forall i :: 0 <= i < |x| ==> !IsLineTerminator(x[i])
    requires NoStarPair(x + "*")
    ensures Bold("**" + x + "**" + rest) == "<strong>" + x + "</strong>" + Bold(rest)
  {
    var s := "**" + x + "**" + rest;
    var e := 2 + |x|;
    forall i | 2 <= i < e
      ensures !IsLineTerminator(s[i]) && !(s[i] == '*' && s[i + 1] == '*')
    {
      assert s[i] == x[i - 2] == (x + "*")[i - 2];
      assert s[i + 1] == (x + "*")[i - 1];
    }
    CloseStarsAt(s, 2, e);
    assert s[2..e] == x;
    assert s[e + 2..] == rest;
  }

  /** The first bold step inside `a` is the same whether or not a newline
      and more text follow `a`. */
  lemma BoldHeadStopsAtNewline(a: string, b: string)
    requires |a| > 0
    ensures BoldHead(a + "\n" + b) == BoldHead(a)
  {
    var s := a + "\n" + b;
    assert s[0] == a[0];
    if |a| >= 2 {
      CloseStarsStopsAtNewline(a, b, 2);
      assert s[1] == a[1];
      if OpensStars(a) && CloseStars(a, 2).Some? {
        var j := CloseStars(a, 2).value;
        assert s[2..j] == a[2..j];
      }
    } else {
      assert s[1] == '\n';
    }
  }

  /** A bold match never spans a newline, so the pass distributes over one. */
  lemma {:induction false} BoldSplitsAtNewline(a: string, b: string)
    ensures Bold(a + "\n" + b) == Bold(a) + "\n" + Bold(b)
    decreases |a|
  {
    var s := a + "\n" + b;
    if |a| == 0 {
      assert s == "\n" + b;
      assert BoldHead(s) == (1, "\n");
      assert s[1..] == b;
      BoldStep(s);
    } else {
      BoldHeadStopsAtNewline(a, b);
      var h := BoldHead(a);
      var t := a[h.0..];
      assert s[h.0..] == t + "\n" + b;
      BoldSplitsAtNewline(t, b);
      BoldStep(s);
      BoldStep(a);
      calc {
        Bold(s);
        h.1 + Bold(t + "\n" + b);
        h.1 + (Bold(t) + "\n" + Bold(b));
        { AppendAssoc(h.1, Bold(t) + "\n", Bold(b)); AppendAssoc(h.1, Bold(t), "\n"); }
        (h.1 + Bold(t)) + "\n" + Bold(b);
      }
    }
  }

  /** One step of the bold pass. */
  lemma BoldStep(s: string)
    requires |s| > 0
    ensures Bold(s) == BoldHead(s).1 + Bold(s[BoldHead(s).0..])
  {
  }

  /** The bold pass neither adds nor removes a newline inside a line. */
  lemma {:induction false} BoldNewlineFree(s: string)
    requires '\n' !in s
    ensures '\n' !in Bold(s)
    decreases |s|
  {
    if |s| > 0 {
      var h := BoldHead(s);
      assert '\n' !in h.1 by {
        if OpensStars(s) && CloseStars(s, 2).Some? {
          var j := CloseStars(s, 2).value;
          assert forall c :: c in s[2..j] ==> c in s;
        }
      }
      assert forall c :: c in s[h.0..] ==> c in s;
      BoldNewlineFree(s[h.0..]);
    }
  }

  function MapBold(lines: seq<string>): (r: seq<string>)
    ensures |r| == |lines|
    ensures forall i :: 0 <= i < |lines| ==> r[i] == Bold(lines[i])
  {
    if |lines| == 0 then [] else [Bold(lines[0])] + MapBold(lines[1..])
  }

  lemma {:induction false} BoldJoin(parts: seq<string>)
    requires |parts| >= 1
    ensures Bold(Join(parts, "\n")) == Join(MapBold(parts), "\n")
  {
    if |parts| > 1 {
      BoldJoin(parts[1..]);
      BoldSplitsAtNewline(parts[0], Join(parts[1..], "\n"));
      assert MapBold(parts)[1..] == MapBold(parts[1..]);
    }
  }

  /** Applying the bold pass to the whole text and then splitting it into lines
      is the same as splitting first and applying the pass to every line. */
  lemma BoldPerLine(text: string)
    ensures Split(Bold(text), '\n') == MapBold(Split(text, '\n'))
  {
    var parts := Split(text, '\n');
    JoinSplit(text, '\n');
    BoldJoin(parts);
    var bolded := MapBold(parts);
    forall i | 0 <= i < |bolded|
      ensures '\n' !in bolded[i]
    {
      BoldNewlineFree(parts[i]);
    }
    SplitJoin(bolded, '\n');
  }

  // ---------------------------------------------------------------------
  // `/^\d+\.\s/.test(line)` and `line.replace(/^\d+\.\s*/, '')`

  /** Length of the greedy `\d+` run at the start of `s` (0 when none). */
  function DigitRun(s: string): (n: nat)
    ensures n <= |s|
    ensures forall i :: 0 <= i < n ==> IsDigit(s[i])
    ensures n == |s| || !IsDigit(s[n])
  {
    if |s| > 0 && IsDigit(s[0]) then 1 + DigitRun(s[1..]) else 0
  }

  /** `^\d+\.\s`: digits, a full stop, then one white-space character. */
  predicate IsNumbered(line: string) {
    var n := DigitRun(line);
    n >= 1 && n + 2 <= |line| && line[n] == '.' && IsSpace(line[n + 1])
  }

  /** `^\d+\.\s*` removed; a line it does not match is returned unchanged. */
  function StripNumber(line: string): string {
    var n := DigitRun(line);
    if n >= 1 && n < |line| && line[n] == '.' then TrimStart(line[n + 1..]) else line
  }

  /** On a trimmed line the numbered test passes only when text follows the
      numeral, so stripping it never leaves an empty line, and what remains is
      itself trimmed. */
  lemma NumberedRemainder(line: string)
    requires Trimmed(line) && IsNumbered(line)
    ensures StripNumber(line) != []
    ensures Trimmed(StripNumber(line))
    ensures |StripNumber(line)| < |line| && StripNumber(line) == line[|line| - |StripNumber(line)|..]
  {
    var k := DigitRun(line) + 1;
    assert !IsSpace(line[|line| - 1]);
    TrimStartOfTail(line, k);
    assert StripNumber(line) == TrimStart(line[k..]);
  }

  // ---------------------------------------------------------------------
  // `line.match(/<strong>(.*?):\s*<\/strong>(.*)/i)`

  const OpenTag: string := "<strong>"
  const CloseTag: string := "</strong>"

  /** `tag` (lower-case) occurs at `k`, ASCII letters compared without case. */
  predicate TagAt(s: string, k: int, tag: string) {
    0 <= k && k + |tag| <= |s| && Lower(s[k..k + |tag|]) == tag
  }

  /** The greedy `\s*` from `k`: the first index at or after `k` that is not space. */
  function SkipSpace(s: string, k: nat): (r: nat)
    requires k <= |s|
    ensures k <= r <= |s|
    ensures forall i :: k <= i < r ==> IsSpace(s[i])
    ensures r == |s| || !IsSpace(s[r])
    decreases |s| - k
  {
    if k < |s| && IsSpace(s[k]) then SkipSpace(s, k + 1) else k
  }

  /** The length of the longest prefix of `s` without a line terminator. */
  function LineEnd(s: string): (n: nat)
    ensures n <= |s|
    ensures forall i :: 0 <= i < n ==> !IsLineTerminator(s[i])
    ensures n == |s| || IsLineTerminator(s[n])
  {
    if |s| > 0 && !IsLineTerminator(s[0]) then 1 + LineEnd(s[1..]) else 0
  }

  /** The greedy `(.*)`: the longest prefix without a line terminator. */
  function RestOfLine(s: string): string {
    s[..LineEnd(s)]
  }

  /** The two capture groups of a `<strong>label:</strong>value` match. */
  datatype LabelMatch = LabelMatch(name: string, value: string)

  /** `:\s*<\/strong>` completes the pattern at the colon index `q`. */
  predicate ClosesAt(s: string, q: int) {
    0 <= q < |s| && s[q] == ':' && TagAt(s, SkipSpace(s, q + 1), CloseTag)
  }

  /** The match completed at the colon `q`: the label from `start` up to the
      colon, and the rest of the line after the closing tag as the value. */
  function LabelAt(s: string, start: nat, q: nat): LabelMatch
    requires start <= q && ClosesAt(s, q)
  {
    LabelMatch(s[start..q], RestOfLine(s[SkipSpace(s, q + 1) + |CloseTag|..]))
  }

  /** The lazy `(.*?)` label starting at `start`, extended one character at a
      time from `q` until the colon that closes the pattern. */
  function LabelFrom(s: string, start: nat, q: nat): Option<LabelMatch>
    requires start <= q <= |s|
    decreases |s| - q
  {
    if q >= |s| then None
    else if ClosesAt(s, q) then Some(LabelAt(s, start, q))
    else if IsLineTerminator(s[q]) then None
    else LabelFrom(s, start, q + 1)
  }

  /** A label the scan from `q` reports ends at the first colon `e` from `q`
      on that closes the pattern, with no line terminator before it; the
      value is the rest of the line after the closing tag. */
  lemma {:induction false} LabelFromFound(s: string, start: nat, q: nat) returns (e: nat)
    requires start <= q <= |s| && LabelFrom(s, start, q).Some?
    ensures q <= e < |s| && ClosesAt(s, e)
    ensures LabelFrom(s, start, q).value == LabelAt(s, start, e)
    ensures forall i :: q <= i < e ==> !ClosesAt(s, i) && !IsLineTerminator(s[i])
    decreases |s| - q
  {
    if ClosesAt(s, q) {
      e := q;
    } else {
      assert !IsLineTerminator(s[q]);
      assert LabelFrom(s, start, q) == LabelFrom(s, start, q + 1);
      e := LabelFromFound(s, start, q + 1);
    }
  }

  /** When the scan from `q` reports nothing, every colon from `q` on that
      would close the pattern comes after a line terminator. */
  lemma {:induction false} LabelFromMissed(s: string, start: nat, q: nat)
    requires start <= q <= |s| && LabelFrom(s, start, q).None?
    ensures forall i :: q <= i && LineFree(s, q, i) ==> !ClosesAt(s, i)
    decreases |s| - q
  {
    if q < |s| && !ClosesAt(s, q) && !IsLineTerminator(s[q]) {
      LabelFromMissed(s, start, q + 1);
    }
  }

  /** The pattern anchored at `p`. */
  function StrongAt(s: string, p: nat): Option<LabelMatch>
    requires p <= |s|
  {
    if TagAt(s, p, OpenTag) then LabelFrom(s, p + |OpenTag|, p + |OpenTag|) else None
  }

  /** The leftmost match at or after `p`. */
  function StrongFrom(s: string, p: nat): Option<LabelMatch>
    requires p <= |s|
    decreases |s| - p
  {
    if StrongAt(s, p).Some? then StrongAt(s, p)
    else if p == |s| then None
    else StrongFrom(s, p + 1)
  }

  /** The unanchored match over the whole line. */
  function StrongLabel(s: string): Option<LabelMatch> {
    StrongFrom(s, 0)
  }

  /** When the scan from `p` reports a match, it is the one anchored at the
      leftmost position `k` from `p` on where the pattern matches. */
  lemma {:induction false} StrongFromFound(s: string, p: nat) returns (k: nat)
    requires p <= |s| && StrongFrom(s, p).Some?
    ensures p <= k <= |s| && StrongAt(s, k) == StrongFrom(s, p)
    ensures forall j :: p <= j < k ==> StrongAt(s, j).None?
    decreases |s| - p
  {
    if StrongAt(s, p).Some? {
      k := p;
    } else {
      k := StrongFromFound(s, p + 1);
    }
  }

  /** When the scan from `p` reports nothing, the pattern matches nowhere
      from `p` on. */
  lemma {:induction false} StrongFromMissed(s: string, p: nat)
    requires p <= |s| && StrongFrom(s, p).None?
    ensures forall k :: p <= k <= |s| ==> StrongAt(s, k).None?
    decreases |s| - p
  {
    if p < |s| {
      StrongFromMissed(s, p + 1);
    }
  }

  /** The unanchored match is the one anchored at the leftmost `<strong>`
      where the whole pattern matches; there is none when it matches at no
      position. */
  lemma StrongLabelSpec(s: string)
    ensures StrongLabel(s).Some? ==>
      exists k :: 0 <= k <= |s| && TagAt(s, k, OpenTag) && StrongAt(s, k) == StrongLabel(s)
                  && forall j :: 0 <= j < k ==> StrongAt(s, j).None?
    ensures StrongLabel(s).None? ==> forall k :: 0 <= k <= |s| ==> StrongAt(s, k).None?
  {
    if StrongLabel(s).Some? {
      var k := StrongFromFound(s, 0);
      assert TagAt(s, k, OpenTag);
    } else {
      StrongFromMissed(s, 0);
    }
  }

  // ---------------------------------------------------------------------
  // `new RegExp('^\\s*-?\\s*' + key + ':\\s*', 'i')` for every table key

  /** Where the match of `^\s*-?\s*KEY:\s*` ends on `line`, if it matches.
      Every key starts with a letter, so the greedy choices never backtrack. */
  function KeyPrefix(line: string, key: string): (r: Option<nat>)
    ensures r.Some? ==> r.value <= |line| && (r.value == |line| || !IsSpace(line[r.value]))
  {
    var c := SkipSpace(line, DashEnd(line));
    if c + |key| < |line| && Lower(line[c..c + |key|]) == key && line[c + |key|] == ':' then
      Some(SkipSpace(line, c + |key| + 1))
    else None
  }

  /** Where `^\s*-?` ends: after the leading white space and the dash, if
      one follows it. */
  function DashEnd(line: string): (b: nat)
    ensures b <= |line|
  {
    var a := SkipSpace(line, 0);
    if a < |line| && line[a] == '-' then a + 1 else a
  }

  /** The greedy `\s*` from `i` stops at `j` when everything before `j` is
      white space and `j` is not. */
  lemma SkipSpaceTo(s: string, i: nat, j: nat)
    requires i <= j <= |s| && (j == |s| || !IsSpace(s[j]))
    requires forall m :: i <= m < j ==> IsSpace(s[m])
    ensures SkipSpace(s, i) == j
  {
    var r := SkipSpace(s, i);
    if r != j {
      assert false;
    }
  }

  /** `^\s*-?\s*KEY:\s*` matches a line made of white space, an optional
      `-`, white space, the key in any ASCII case, a colon and white space,
      and the match takes all of that. */
  lemma KeyPrefixOf(lead: string, dash: string, mid: string, k: string, sp: string, rest: string, key: string)
    requires AllSpace(lead) && AllSpace(mid) && AllSpace(sp)
    requires dash == "" || dash == "-"
    requires |k| == |key| > 0 && Lower(k) == key && !IsSpace(k[0]) && k[0] != '-'
    requires rest == "" || !IsSpace(rest[0])
    ensures KeyPrefix(lead + dash + mid + k + ":" + sp + rest, key).Some?
    ensures KeyPrefix(lead + dash + mid + k + ":" + sp + rest, key).value == |lead| + |dash| + |mid| + |k| + 1 + |sp|
  {
    if dash == "-" {
      KeyPrefixDash(lead, mid, k, sp, rest, key);
    } else {
      assert lead + dash == lead;
      KeyPrefixNoDash(lead, mid, k, sp, rest, key);
    }
  }

  lemma KeyPrefixDash(lead: string, mid: string, k: string, sp: string, rest: string, key: string)
    requires AllSpace(lead) && AllSpace(mid) && AllSpace(sp)
    requires |k| == |key| > 0 && Lower(k) == key && !IsSpace(k[0])
    requires rest == "" || !IsSpace(rest[0])
    ensures KeyPrefix(lead + "-" + mid + k + ":" + sp + rest, key).Some?
    ensures KeyPrefix(lead + "-" + mid + k + ":" + sp + rest, key).value == |lead| + 1 + |mid| + |k| + 1 + |sp|
  {
    var s := lead + "-" + mid + k + ":" + sp + rest;
    var c := |lead| + 1 + |mid|;
    LeadSkipDash(lead, mid, k, sp, rest);
    MidSkip(lead + "-", mid, k, sp, rest);
    KeyAt(lead + "-" + mid, k, sp, rest);
    TailSkip(lead + "-" + mid + k + ":", sp, rest);
    KeyPrefixAt(s, key, |lead| + 1, c, |lead| + 1 + |mid| + |k| + 1 + |sp|);
  }

  lemma KeyPrefixNoDash(lead: string, mid: string, k: string, sp: string, rest: string, key: string)
    requires AllSpace(lead) && AllSpace(mid) && AllSpace(sp)
    requires |k| == |key| > 0 && Lower(k) == key && !IsSpace(k[0]) && k[0] != '-'
    requires rest == "" || !IsSpace(rest[0])
    ensures KeyPrefix(lead + mid + k + ":" + sp + rest, key).Some?
    ensures KeyPrefix(lead + mid + k + ":" + sp + rest, key).value == |lead| + |mid| + |k| + 1 + |sp|
  {
    var s := lead + mid + k + ":" + sp + rest;
    var c := |lead| + |mid|;
    LeadSkipNone(lead, mid, k, sp, rest);
    KeyAt(lead + mid, k, sp, rest);
    TailSkip(lead + mid + k + ":", sp, rest);
    KeyPrefixAt(s, key, c, c, c + |k| + 1 + |sp|);
  }

  /** The pattern's three `\s*` stops, stated on the line itself. */
  lemma KeyPrefixAt(line: string, key: string, b: nat, c: nat, f: nat)
    requires DashEnd(line) == b && SkipSpace(line, b) == c
    requires c + |key| < |line| && Lower(line[c..c + |key|]) == key && line[c + |key|] == ':'
    requires SkipSpace(line, c + |key| + 1) == f
    ensures KeyPrefix(line, key).Some? && KeyPrefix(line, key).value == f
  {
  }

  /** The first `\s*` stops at the dash... */
  lemma LeadSkipDash(lead: string, mid: string, k: string, sp: string, rest: string)
    requires AllSpace(lead)
    ensures DashEnd(lead + "-" + mid + k + ":" + sp + rest) == |lead| + 1
  {
    var s := lead + "-" + mid + k + ":" + sp + rest;
    assert s[|lead|] == '-';
    SkipSpaceTo(s, 0, |lead|);
  }

  /** ...or, when there is none, at the key, which starts with neither. */
  lemma LeadSkipNone(lead: string, mid: string, k: string, sp: string, rest: string)
    requires AllSpace(lead) && AllSpace(mid) && |k| > 0 && !IsSpace(k[0]) && k[0] != '-'
    ensures DashEnd(lead + mid + k + ":" + sp + rest) == |lead| + |mid|
    ensures SkipSpace(lead + mid + k + ":" + sp + rest, |lead| + |mid|) == |lead| + |mid|
  {
    var s := lead + mid + k + ":" + sp + rest;
    var n := |lead| + |mid|;
    assert s[n] == k[0];
    forall m | 0 <= m < n
      ensures IsSpace(s[m])
    {
      if m < |lead| {
        assert s[m] == lead[m];
      } else {
        assert s[m] == mid[m - |lead|];
      }
    }
    SkipSpaceTo(s, 0, n);
    SkipSpaceTo(s, n, n);
  }

  /** The second `\s*` stops at the key. */
  lemma MidSkip(pre: string, mid: string, k: string, sp: string, rest: string)
    requires AllSpace(mid) && |k| > 0 && !IsSpace(k[0])
    ensures SkipSpace(pre + mid + k + ":" + sp + rest, |pre|) == |pre| + |mid|
  {
    var s := pre + mid + k + ":" + sp + rest;
    assert s[|pre| + |mid|] == k[0];
    forall m | |pre| <= m < |pre| + |mid|
      ensures IsSpace(s[m])
    {
      assert s[m] == mid[m - |pre|];
    }
    SkipSpaceTo(s, |pre|, |pre| + |mid|);
  }

  /** The key, then the colon. */
  lemma KeyAt(pre: string, k: string, sp: string, rest: string)
    ensures |pre| + |k| < |pre + k + ":" + sp + rest|
    ensures (pre + k + ":" + sp + rest)[|pre|..|pre| + |k|] == k
    ensures (pre + k + ":" + sp + rest)[|pre| + |k|] == ':'
  {
    var s := pre + k + ":" + sp + rest;
    assert s == (pre + k) + (":" + sp + rest);
    assert (pre + k)[|pre|..] == k;
  }

  /** The last `\s*` takes all the white space after the colon. */
  lemma TailSkip(pre: string, sp: string, rest: string)
    requires AllSpace(sp) && (rest == "" || !IsSpace(rest[0]))
    ensures SkipSpace(pre + sp + rest, |pre|) == |pre| + |sp|
  {
    var s := pre + sp + rest;
    if rest != "" {
      assert s[|pre| + |sp|] == rest[0];
    }
    forall m | |pre| <= m < |pre| + |sp|
      ensures IsSpace(s[m])
    {
      assert s[m] == sp[m - |pre|];
    }
    SkipSpaceTo(s, |pre|, |pre| + |sp|);
  }

  /** Conversely, a line the pattern matches is made of those parts, and the
      match ends after the white space following the colon. */
  lemma KeyPrefixParts(line: string, key: string) returns (lead: string, dash: string, mid: string, k: string, sp: string, rest: string)
    requires KeyPrefix(line, key).Some?
    ensures line == lead + dash + mid + k + ":" + sp + rest
    ensures AllSpace(lead) && AllSpace(mid) && AllSpace(sp)
    ensures dash == "" || dash == "-"
    ensures |k| == |key| && Lower(k) == key
    ensures rest == "" || !IsSpace(rest[0])
    ensures KeyPrefix(line, key).value == |lead| + |dash| + |mid| + |k| + 1 + |sp|
  {
    KeyPrefixStops(line, key);
    DashEndAt(line);
    var a := SkipSpace(line, 0);
    var b := DashEnd(line);
    var c := SkipSpace(line, b);
    lead, dash, mid, k, sp, rest := LineParts(line, key, a, b, c, SkipSpace(line, c + |key| + 1));
  }

  /** The cut points of a match give the parts of the line. */
  lemma LineParts(line: string, key: string, a: nat, b: nat, c: nat, f: nat)
    returns (lead: string, dash: string, mid: string, k: string, sp: string, rest: string)
    requires a <= b <= c && c + |key| < f <= |line|
    requires SkipSpace(line, 0) == a && SkipSpace(line, b) == c && SkipSpace(line, c + |key| + 1) == f
    requires b == a || (b == a + 1 && line[a] == '-')
    requires Lower(line[c..c + |key|]) == key && line[c + |key|] == ':'
    ensures line == lead + dash + mid + k + ":" + sp + rest
    ensures AllSpace(lead) && AllSpace(mid) && AllSpace(sp)
    ensures dash == "" || dash == "-"
    ensures |k| == |key| && Lower(k) == key
    ensures rest == "" || !IsSpace(rest[0])
    ensures f == |lead| + |dash| + |mid| + |k| + 1 + |sp|
  {
    var e := c + |key|;
    lead, dash, mid, k, sp, rest := line[..a], line[a..b], line[b..c], line[c..e], line[e + 1..f], line[f..];
    SpaceSlice(line, 0, a);
    SpaceSlice(line, b, c);
    SpaceSlice(line, e + 1, f);
    if b == a + 1 {
      assert dash == [line[a]];
    }
    SlicesJoin(line, a, b, c, e, f);
    if rest != "" {
      assert rest[0] == line[f];
    }
  }

  /** What a match says about the line itself: where the key sits, the colon
      after it, and where the match ends. */
  lemma KeyPrefixStops(line: string, key: string)
    requires KeyPrefix(line, key).Some?
    ensures SkipSpace(line, DashEnd(line)) + |key| < |line|
    ensures Lower(line[SkipSpace(line, DashEnd(line))..SkipSpace(line, DashEnd(line)) + |key|]) == key
    ensures line[SkipSpace(line, DashEnd(line)) + |key|] == ':'
    ensures KeyPrefix(line, key).value == SkipSpace(line, SkipSpace(line, DashEnd(line)) + |key| + 1)
  {
  }

  /** The optional dash is one `-` right after the leading white space. */
  lemma DashEndAt(line: string)
    ensures DashEnd(line) == SkipSpace(line, 0) || (DashEnd(line) == SkipSpace(line, 0) + 1 && line[SkipSpace(line, 0)] == '-')
  {
  }

  /** A stretch of white space, cut out, is all white space. */
  lemma SpaceSlice(s: string, i: nat, j: nat)
    requires i <= j <= |s| && SkipSpace(s, i) == j
    ensures AllSpace(s[i..j])
  {
    forall m | 0 <= m < j - i
      ensures IsSpace(s[i..j][m])
    {
      assert s[i..j][m] == s[i + m];
    }
  }

  /** A line cut at five points, with one character between the fourth
      and the fifth cut but one, joins back to itself. */
  lemma SlicesJoin(line: string, a: nat, b: nat, c: nat, e: nat, f: nat)
    requires a <= b <= c <= e && e + 1 <= f <= |line| && line[e] == ':'
    ensures line == line[..a] + line[a..b] + line[b..c] + line[c..e] + ":" + line[e + 1..f] + line[f..]
  {
    assert line[e..e + 1] == ":";
    assert line[..b] == line[..a] + line[a..b];
    assert line[..c] == line[..b] + line[b..c];
    assert line[..e] == line[..c] + line[c..e];
    assert line[..e + 1] == line[..e] + ":";
    assert line[..f] == line[..e + 1] + line[e + 1..f];
    assert line == line[..f] + line[f..];
  }

  /** A table key whose pattern matches, found by scanning the table in order. */
  datatype KeyMatch = KeyMatch(index: nat, end: nat)

  /** The scan of a label table from entry `k` on. */
  function KeyFrom(line: string, table: seq<(string, Icon)>, k: nat): (r: Option<KeyMatch>)
    requires k <= |table|
    ensures r.Some? ==> k <= r.value.index < |table| && r.value.end <= |line|
    decreases |table| - k
  {
    if k == |table| then None
    else match KeyPrefix(line, table[k].0)
      case Some(e) => Some(KeyMatch(k, e))
      case None => KeyFrom(line, table, k + 1)
  }

  /** The first table key, in declaration order, whose plain-label pattern matches. */
  function KeyLabel(line: string): (r: Option<KeyMatch>)
    ensures r.Some? ==> r.value.index < |Table| && r.value.end <= |line|
  {
    KeyFrom(line, Table, 0)
  }

  /** A match the scan from `k` reports is the first entry from `k` on whose
      pattern matches, with where that match ends. */
  lemma {:induction false} KeyFromFound(line: string, table: seq<(string, Icon)>, k: nat)
    requires k <= |table| && KeyFrom(line, table, k).Some?
    ensures KeyPrefix(line, table[KeyFrom(line, table, k).value.index].0) == Some(KeyFrom(line, table, k).value.end)
    ensures forall j :: k <= j < KeyFrom(line, table, k).value.index ==> KeyPrefix(line, table[j].0).None?
    decreases |table| - k
  {
    var m := KeyFrom(line, table, k).value;
    if KeyPrefix(line, table[k].0).None? {
      assert KeyFrom(line, table, k) == KeyFrom(line, table, k + 1);
      KeyFromFound(line, table, k + 1);
      forall j | k < j < m.index
        ensures KeyPrefix(line, table[j].0).None?
      {
        assert k + 1 <= j < KeyFrom(line, table, k + 1).value.index;
      }
    } else {
      assert m.index == k;
    }
  }

  /** The scan from `k` reports nothing only when no entry from `k` on matches. */
  lemma {:induction false} KeyFromMissed(line: string, table: seq<(string, Icon)>, k: nat)
    requires k <= |table| && KeyFrom(line, table, k).None?
    ensures forall j :: k <= j < |table| ==> KeyPrefix(line, table[j].0).None?
    decreases |table| - k
  {
    if k < |table| {
      assert KeyPrefix(line, table[k].0).None?;
      assert KeyFrom(line, table, k + 1).None?;
      KeyFromMissed(line, table, k + 1);
      forall j | k < j < |table|
        ensures KeyPrefix(line, table[j].0).None?
      {
        assert k + 1 <= j;
      }
    }
  }

  /** The plain-label recogniser reports the first table key, in declaration
      order, whose pattern matches, and nothing when none does. */
  lemma KeyLabelSpec(line: string)
    ensures KeyLabel(line).Some? ==> KeyPrefix(line, Table[KeyLabel(line).value.index].0) == Some(KeyLabel(line).value.end)
    ensures KeyLabel(line).Some? ==> forall j :: 0 <= j < KeyLabel(line).value.index ==> KeyPrefix(line, Table[j].0).None?
    ensures KeyLabel(line).None? ==> forall j :: 0 <= j < |Table| ==> KeyPrefix(line, Table[j].0).None?
  {
    if KeyLabel(line).Some? {
      KeyFromFound(line, Table, 0);
    } else {
      KeyFromMissed(line, Table, 0);
    }
  }

  /** `key.charAt(0).toUpperCase() + key.slice(1)`. */
  function Capitalize(key: string): (r: string)
    ensures |r| == |key|
    ensures |key| > 0 ==> r[1..] == key[1..] && r[0] == UpperChar(key[0])
  {
    if |key| == 0 then "" else [UpperChar(key[0])] + key[1..]
  }

  // ---------------------------------------------------------------------
  // `line.replace(/!\[Image \d+\]\((.*?)\)/g, ...)`

  const ImageTag: string := "![Image "

  /** The lazy `(.*?)\)` from `q`: the first `)` at or after `q` with no line
      terminator before it. */
  function CloseParen(s: string, q: nat): (r: Option<nat>)
    ensures r.Some? ==> q <= r.value < |s| && s[r.value] == ')'
    ensures r.Some? ==> forall i :: q <= i < r.value ==> s[i] != ')' && !IsLineTerminator(s[i])
    decreases |s| - q
  {
    if q >= |s| then None
    else if s[q] == ')' then Some(q)
    else if IsLineTerminator(s[q]) then None
    else CloseParen(s, q + 1)
  }

  /** The URL span `(from, to)` of an image reference anchored at the start of `s`. */
  function ImageAt(s: string): (r: Option<(nat, nat)>)
    ensures r.Some? ==> StartsWith(s, ImageTag) && r.value.0 <= r.value.1 < |s| && s[r.value.1] == ')'
    ensures r.Some? ==> |ImageTag| + 3 <= r.value.0
    ensures r.Some? ==> forall i :: |ImageTag| <= i < r.value.0 - 2 ==> IsDigit(s[i])
    ensures r.Some? ==> s[r.value.0 - 2] == ']' && s[r.value.0 - 1] == '('
    ensures r.Some? ==> forall i :: r.value.0 <= i < r.value.1 ==> s[i] != ')' && !IsLineTerminator(s[i])
  {
    if !StartsWith(s, ImageTag) then None
    else
      var n := DigitRun(s[|ImageTag|..]);
      var k := |ImageTag| + n;
      if n == 0 || k + 2 > |s| || s[k] != ']' || s[k + 1] != '(' then None
      else match CloseParen(s, k + 2)
        case Some(e) => Some((k + 2, e))
        case None => None
  }

  /** The thumbnail fragment an image reference becomes; both the image
      source and the enlarge handler get the same URL. */
  function Thumbnail(url: string): string {
    "<div class=\"property-feature\">\n"
    + "                        <span class=\"feature-icon\">" + Glyph(Camera) + "</span>\n"
    + "                        <div class=\"image-container\">\n"
    + "                            <img src=\"" + url + "\" alt=\"Property Image\" class=\"property-thumbnail\" onclick=\"openImageModal('" + url + "')\" />\n"
    + "                            <span class=\"image-label\">Click to enlarge</span>\n"
    + "                        </div>\n"
    + "                    </div>"
  }

  /** A line cut into the pieces the rewriting treats alike: characters
      copied as they are and image references, by URL. */
  datatype Piece = Char(c: char) | Image(url: string)

  /** The image references of `s`, taken left to right and never
      overlapping, with every other character kept. */
  function Scan(s: string): (ps: seq<Piece>)
    decreases |s|
  {
    if |s| == 0 then []
    else match ImageRef(s)
      case Some((url, rest)) => [Image(url)] + Scan(rest)
      case None => [Char(s[0])] + Scan(s[1..])
  }

  /** The URL of the image reference anchored at the start of `s` and the
      text after its closing parenthesis. */
  function ImageRef(s: string): (r: Option<(string, string)>)
    ensures r.Some? ==> StartsWith(s, ImageTag) && |r.value.1| < |s|
  {
    match ImageAt(s)
    case Some((u, e)) => Some((s[u..e], s[e + 1..]))
    case None => None
  }

  /** A character stands for itself; an image reference becomes the
      thumbnail of its URL as the formatter's own Drive converter rewrites
      it. */
  function EmitPiece(p: Piece): string {
    match p
    case Char(c) => [c]
    case Image(url) => Thumbnail(Drive.ConvertInner(url))
  }

  function Emit(ps: seq<Piece>): string
    decreases |ps|
  {
    if |ps| == 0 then "" else EmitPiece(ps[0]) + Emit(ps[1..])
  }

  /** Every image reference replaced, left to right, by its thumbnail. */
  function ReplaceImages(s: string): string {
    Emit(Scan(s))
  }

  lemma EmitCons(p: Piece, ps: seq<Piece>)
    ensures Emit([p] + ps) == EmitPiece(p) + Emit(ps)
  {
    assert ([p] + ps)[1..] == ps;
  }

  /** Every character of `s` as a piece of its own. */
  function Chars(s: string): seq<Piece>
    decreases |s|
  {
    if |s| == 0 then [] else [Char(s[0])] + Chars(s[1..])
  }

  /** Rendering keeps characters: a scan of characters only renders back to
      the text. */
  lemma {:induction false} EmitChars(s: string)
    ensures Emit(Chars(s)) == s
    decreases |s|
  {
    if |s| > 0 {
      EmitCons(Char(s[0]), Chars(s[1..]));
      EmitChars(s[1..]);
      assert [s[0]] + s[1..] == s;
    }
  }

  /** Without an image reference marker, a line scans to its characters. */
  lemma {:induction false} ScanIdentity(s: string)
    requires !Contains(s, ImageTag)
    ensures Scan(s) == Chars(s)
    decreases |s|
  {
    if |s| > 0 {
      assert ImageRef(s).None? by {
        assert !OccursAt(s, ImageTag, 0);
      }
      assert !Contains(s[1..], ImageTag) by {
        forall j ensures !OccursAt(s[1..], ImageTag, j) {
          if j >= 0 {
            OccursShift(s, ImageTag, j + 1);
          }
        }
      }
      ScanIdentity(s[1..]);
    }
  }

  /** A line without an image reference marker is left as it is. */
  lemma ReplaceImagesIdentity(s: string)
    requires !Contains(s, ImageTag)
    ensures ReplaceImages(s) == s
  {
    ScanIdentity(s);
    EmitChars(s);
  }

  /** A line that starts with an image reference `![Image N](url)` scans to
      that reference followed by the scan of the rest of the line. */
  lemma ScanPrefix(digits: string, url: string, rest: string)
    requires digits != [] && forall i :: 0 <= i < |digits| ==> IsDigit(digits[i])
    requires forall i :: 0 <= i < |url| ==> url[i] != ')' && !IsLineTerminator(url[i])
    ensures Scan(ImageTag + digits + "](" + url + ")" + rest) == [Image(url)] + Scan(rest)
  {
    var s := ImageTag + digits + "](" + url + ")" + rest;
    var u := |ImageTag| + |digits| + 2;
    ImageAtPrefix(digits, url, rest);
    ImageSlices(digits, url, rest);
    assert ImageRef(s) == Some((url, rest));
    assert |s| > 0;
  }

  /** A line that starts with an image reference `![Image N](url)` becomes
      the thumbnail of the converted URL followed by the rewriting of the
      rest of the line. */
  lemma ImagePrefix(digits: string, url: string, rest: string)
    requires digits != [] && forall i :: 0 <= i < |digits| ==> IsDigit(digits[i])
    requires forall i :: 0 <= i < |url| ==> url[i] != ')' && !IsLineTerminator(url[i])
    ensures ReplaceImages(ImageTag + digits + "](" + url + ")" + rest)
            == Thumbnail(Drive.ConvertInner(url)) + ReplaceImages(rest)
  {
    ScanPrefix(digits, url, rest);
    EmitCons(Image(url), Scan(rest));
    EmitImage(url);
  }

  lemma ImageSlices(digits: string, url: string, rest: string)
    ensures var s := ImageTag + digits + "](" + url + ")" + rest;
            var u := |ImageTag| + |digits| + 2;
            s[u..u + |url|] == url && s[u + |url| + 1..] == rest
  {
  }

  /** A line whose first character starts no image reference keeps that
      character and rewrites the rest. */
  lemma NoImageAt(c: char, rest: string)
    requires ImageRef([c] + rest).None?
    ensures ReplaceImages([c] + rest) == [c] + ReplaceImages(rest)
  {
    assert ([c] + rest)[1..] == rest;
    assert Scan([c] + rest) == [Char(c)] + Scan(rest);
    EmitCons(Char(c), Scan(rest));
  }

  /** A tag with no number right after it, such as `![Image x](u)`, starts
      no reference. */
  lemma UnnumberedTag(s: string)
    requires StartsWith(s, ImageTag)
    requires |s| == |ImageTag| || !IsDigit(s[|ImageTag|])
    ensures ImageRef(s).None?
  {
    if ImageAt(s).Some? {
      assert false;
    }
  }

  /** A line that is exactly one image reference becomes exactly one
      thumbnail. */
  lemma SingleImage(digits: string, url: string)
    requires digits != [] && forall i :: 0 <= i < |digits| ==> IsDigit(digits[i])
    requires forall i :: 0 <= i < |url| ==> url[i] != ')' && !IsLineTerminator(url[i])
    ensures ReplaceImages(ImageTag + digits + "](" + url + ")") == Thumbnail(Drive.ConvertInner(url))
  {
    var s := ImageTag + digits + "](" + url + ")";
    var p := Image(url);
    calc {
      ReplaceImages(s);
      { AppendEmpty(s); }
      Emit(Scan(s + ""));
      { ScanPrefix(digits, url, ""); }
      Emit([p] + Scan(""));
      { EmitCons(p, Scan("")); }
      EmitPiece(p) + Emit(Scan(""));
      { assert Emit(Scan("")) == []; AppendEmpty(EmitPiece(p)); }
      EmitPiece(p);
      { EmitImage(url); }
      Thumbnail(Drive.ConvertInner(url));
    }
  }

  /** An image piece renders as the thumbnail of its converted URL. */
  lemma EmitImage(url: string)
    ensures EmitPiece(Image(url)) == Thumbnail(Drive.ConvertInner(url))
  {
  }

  lemma ImageAtPrefix(digits: string, url: string, rest: string)
    requires digits != [] && forall i :: 0 <= i < |digits| ==> IsDigit(digits[i])
    requires forall i :: 0 <= i < |url| ==> url[i] != ')' && !IsLineTerminator(url[i])
    ensures var s := ImageTag + digits + "](" + url + ")" + rest;
            ImageAt(s) == Some((|ImageTag| + |digits| + 2, |ImageTag| + |digits| + 2 + |url|))
  {
    var s := ImageTag + digits + "](" + url + ")" + rest;
    var k := |ImageTag| + |digits|;
    var e := k + 2 + |url|;
    assert s[..|ImageTag|] == ImageTag;
    assert s[|ImageTag|..] == digits + ("](" + url + ")" + rest);
    DigitRunOf(digits, "](" + url + ")" + rest);
    assert s[k] == ']' && s[k + 1] == '(' && s[e] == ')';
    forall i | k + 2 <= i < e
      ensures s[i] != ')' && !IsLineTerminator(s[i])
    {
      assert s[i] == url[i - k - 2];
    }
    CloseParenOf(s, k + 2, e);
  }

  lemma {:induction false} DigitRunOf(digits: string, rest: string)
    requires forall i :: 0 <= i < |digits| ==> IsDigit(digits[i])
    requires rest != [] && !IsDigit(rest[0])
    ensures DigitRun(digits + rest) == |digits|
  {
    if |digits| > 0 {
      assert (digits + rest)[1..] == digits[1..] + rest;
      DigitRunOf(digits[1..], rest);
    } else {
      assert digits + rest == rest;
    }
  }

  lemma {:induction false} CloseParenOf(s: string, q: nat, e: nat)
    requires q <= e < |s| && s[e] == ')'
    requires forall i :: q <= i < e ==> s[i] != ')' && !IsLineTerminator(s[i])
    ensures CloseParen(s, q) == Some(e)
    decreases e - q
  {
    if q < e {
      CloseParenOf(s, q + 1, e);
    }
  }
}
