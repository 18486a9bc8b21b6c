/** String primitives the formatter relies on, with the ECMAScript meaning the
    browser gives them: `trim`, `split`, `join`, `indexOf`, `includes` and the
    character classes `\s`, `\d` and `.` of its regular expressions.

    Case conversion is restricted to ASCII letters; the browser's full Unicode
    case mapping is not modelled. */
module Text {

  datatype Option<+T> = None | Some(value: T)

  /** ECMAScript WhiteSpace and LineTerminator code points: what `trim` strips
      and what the regex class `\s` matches. */
  predicate IsSpace(c: char) {
    || c == ' ' || c == '\t' || c == '\n' || c == '\U{000B}' || c == '\U{000C}' || c == '\r'
    || c == '\U{00A0}' || c == '\U{1680}' || ('\U{2000}' <= c <= '\U{200A}')
    || c == '\U{2028}' || c == '\U{2029}' || c == '\U{202F}' || c == '\U{205F}'
    || c == '\U{3000}' || c == '\U{FEFF}'
  }

  /** The code points the regex `.` refuses to match (no `s` flag). */
  predicate IsLineTerminator(c: char) {
    c == '\n' || c == '\r' || c == '\U{2028}' || c == '\U{2029}'
  }

  /** The regex class `\d`: ASCII digits only. */
  predicate IsDigit(c: char) {
    '0' <= c <= '9'
  }

  predicate AllSpace(s: string) {
    forall i :: 0 <= i < |s| ==> IsSpace(s[i])
  }

  /** Neither end of `s` is white space: the shape of every `trim` result. */
  predicate Trimmed(s: string) {
    s == [] || (!IsSpace(s[0]) && !IsSpace(s[|s| - 1]))
  }

  predicate StartsWith(s: string, p: string) {
    |p| <= |s| && s[..|p|] == p
  }

  /** The number of white-space characters `s` starts with. */
  function LeadingSpace(s: string): (n: nat)
    ensures n <= |s|
    ensures forall i :: 0 <= i < n ==> IsSpace(s[i])
    ensures n == |s| || !IsSpace(s[n])
  {
    if |s| > 0 && IsSpace(s[0]) then 1 + LeadingSpace(s[1..]) else 0
  }

  /** The number of white-space characters `s` ends with. */
  function TrailingSpace(s: string): (n: nat)
    ensures n <= |s|
    ensures forall i :: |s| - n <= i < |s| ==> IsSpace(s[i])
    ensures n == |s| || !IsSpace(s[|s| - n - 1])
  {
    if |s| > 0 && IsSpace(s[|s| - 1]) then 1 + TrailingSpace(s[..|s| - 1]) else 0
  }

  /** Leading white space removed. */
  function TrimStart(s: string): string {
    s[LeadingSpace(s)..]
  }

  /** Trailing white space removed. */
  function TrimEnd(s: string): string {
    s[..|s| - TrailingSpace(s)]
  }

  /** `String.prototype.trim`: neither end of the result is white space. */
  function Trim(s: string): (r: string)
    ensures Trimmed(r)
    ensures |r| <= |s|
  {
    var t := TrimStart(s);
    assert t == [] || t[0] == s[LeadingSpace(s)];
    var r := TrimEnd(t);
    assert r == [] || (r[0] == t[0] && r[|r| - 1] == t[|t| - TrailingSpace(t) - 1]);
    r
  }

  /** A text ending in a non-space character keeps that last character
      when its leading white space is removed. */
  lemma TrimStartKeepsLast(t: string)
    requires t != [] && !IsSpace(t[|t| - 1])
    ensures TrimStart(t) != [] && TrimStart(t)[|TrimStart(t)| - 1] == t[|t| - 1]
  {
    assert LeadingSpace(t) < |t|;
  }

  /** A tail of a text that ends in a non-space character, with its leading
      white space removed, is non-empty, trimmed and still a tail. */
  lemma TrimStartOfTail(line: string, k: nat)
    requires k < |line| && !IsSpace(line[|line| - 1])
    ensures TrimStart(line[k..]) != []
    ensures Trimmed(TrimStart(line[k..]))
    ensures |TrimStart(line[k..])| <= |line| - k
    ensures TrimStart(line[k..]) == line[|line| - |TrimStart(line[k..])|..]
  {
    var t := line[k..];
    assert t[|t| - 1] == line[|line| - 1];
    TrimStartKeepsLast(t);
    var n := LeadingSpace(t);
    assert TrimStart(t)[0] == t[n];
    assert t[n..] == line[k + n..];
  }

  /** What trimming removes is white space at either end: `s` is
      `lead + Trim(s) + trail` with `lead` and `trail` all space. */
  lemma TrimShape(s: string)
    ensures exists lead, trail :: AllSpace(lead) && AllSpace(trail) && s == lead + Trim(s) + trail
  {
    var a := TrimStart(s);
    var lead := TrimStartRest(s);
    var trail := TrimEndRest(a);
    var r := TrimEnd(a);
    assert Trim(s) == r;
    assert s == lead + r + trail by {
      AppendAssoc(lead, r, trail);
    }
  }

  lemma TrimStartRest(s: string) returns (lead: string)
    ensures AllSpace(lead) && s == lead + TrimStart(s)
  {
    lead := s[..LeadingSpace(s)];
    assert s == lead + s[LeadingSpace(s)..];
  }

  lemma TrimEndRest(s: string) returns (trail: string)
    ensures AllSpace(trail) && s == TrimEnd(s) + trail
  {
    var m := |s| - TrailingSpace(s);
    trail := s[m..];
    assert AllSpace(trail) by {
      forall i | 0 <= i < |trail|
        ensures IsSpace(trail[i])
      {
        assert trail[i] == s[m + i];
      }
    }
    assert s == s[..m] + trail;
  }

  lemma AppendAssoc<T>(a: seq<T>, b: seq<T>, c: seq<T>)
    ensures a + (b + c) == a + b + c
  {
  }

  lemma AppendEmpty<T>(a: seq<T>)
    ensures a + [] == a
  {
  }

  /** The two halves of a concatenation are recovered by slicing. */
  lemma SliceOfSlice<T>(s: seq<T>, a: nat, b: nat, c: nat, d: nat)
    requires a <= b <= |s| && c <= d <= b - a
    ensures s[a..b][c..d] == s[a + c..a + d]
  {
    forall i | 0 <= i < d - c
      ensures s[a..b][c..d][i] == s[a + c..a + d][i]
    {
      assert s[a..b][c..d][i] == s[a..b][c + i] == s[a + c + i];
    }
  }

  lemma AppendSlices<T>(a: seq<T>, b: seq<T>)
    ensures (a + b)[..|a|] == a && (a + b)[|a|..] == b
  {
  }

  /** The decomposition that defines trimming determines its result. */
  lemma {:induction false} TrimUnique(lead: string, mid: string, trail: string)
    requires AllSpace(lead) && AllSpace(trail) && Trimmed(mid)
    ensures Trim(lead + mid + trail) == mid
  {
    var s := lead + mid + trail;
    if mid == [] {
      assert s == lead + trail;
      assert AllSpace(s) by {
        forall i | 0 <= i < |s|
          ensures IsSpace(s[i])
        {
          if i < |lead| {
            assert s[i] == lead[i];
          } else {
            assert s[i] == trail[i - |lead|];
          }
        }
      }
      assert s + [] == s;
      TrimStartOf(s, []);
      assert TrimStart(s) == [];
      assert Trim(s) == TrimEnd([]);
    } else {
      AppendAssoc(lead, mid, trail);
      TrimStartOf(lead, mid + trail);
      assert TrimStart(s) == mid + trail;
      TrimEndOf(mid, trail);
      assert Trim(s) == TrimEnd(mid + trail);
    }
  }

  lemma TrimStartOf(lead: string, rest: string)
    requires AllSpace(lead) && (rest == [] || !IsSpace(rest[0]))
    ensures TrimStart(lead + rest) == rest
  {
    var s := lead + rest;
    var n := LeadingSpace(s);
    assert s[|lead|..] == rest;
  }

  lemma TrimEndOf(rest: string, trail: string)
    requires AllSpace(trail) && (rest == [] || !IsSpace(rest[|rest| - 1]))
    ensures TrimEnd(rest + trail) == rest
  {
    var s := rest + trail;
    var n := TrailingSpace(s);
    assert s[..|rest|] == rest;
  }

  /** Trimming twice is trimming once. */
  lemma TrimIdempotent(s: string)
    ensures Trim(Trim(s)) == Trim(s)
  {
    var r := Trim(s);
    TrimUnique([], r, []);
    assert [] + r + [] == r;
  }

  /** `String.prototype.split` with a one-character separator: never empty,
      no piece holds the separator (`"".split(c)` is `[""]`). */
  function Split(s: string, sep: char): (r: seq<string>)
    ensures |r| >= 1
    ensures forall i :: 0 <= i < |r| ==> sep !in r[i]
  {
    if |s| == 0 then [""]
    else
      var rest := Split(s[1..], sep);
      if s[0] == sep then [""] + rest
      else [[s[0]] + rest[0]] + rest[1..]
  }

  /** `Array.prototype.join`. */
  function Join(parts: seq<string>, sep: string): string {
    if |parts| == 0 then ""
    else if |parts| == 1 then parts[0]
    else parts[0] + sep + Join(parts[1..], sep)
  }

  /** Splitting and re-joining on the same separator gives back the text. */
  lemma {:induction false} JoinSplit(s: string, sep: char)
    ensures Join(Split(s, sep), [sep]) == s
  {
    if |s| > 0 {
      var rest := Split(s[1..], sep);
      JoinSplit(s[1..], sep);
      if s[0] == sep {
        assert Split(s, sep) == [""] + rest;
        assert ([""] + rest)[1..] == rest;
      } else {
        var r := Split(s, sep);
        assert r == [[s[0]] + rest[0]] + rest[1..];
        if |rest| > 1 {
          assert r[1..] == rest[1..];
          assert Join(rest, [sep]) == rest[0] + [sep] + Join(rest[1..], [sep]);
        }
      }
    }
  }

  /** Joining separator-free pieces and splitting again gives back the pieces. */
  lemma {:induction false} SplitJoin(parts: seq<string>, sep: char)
    requires |parts| >= 1
    requires forall i :: 0 <= i < |parts| ==> sep !in parts[i]
    ensures Split(Join(parts, [sep]), sep) == parts
    decreases |parts|, |parts[0]|
  {
    var p := parts[0];
    if |p| == 0 {
      if |parts| > 1 {
        var tail := parts[1..];
        SplitJoin(tail, sep);
        assert Join(parts, [sep]) == [sep] + Join(tail, [sep]);
        assert ([sep] + Join(tail, [sep]))[1..] == Join(tail, [sep]);
        assert parts == [""] + tail;
      }
    } else {
      var shorter := [p[1..]] + parts[1..];
      assert shorter[1..] == parts[1..];
      assert forall i :: 0 <= i < |shorter| ==> sep !in shorter[i] by {
        forall i | 0 <= i < |shorter|
          ensures sep !in shorter[i]
        {
          if i > 0 {
            assert shorter[i] == parts[i];
          }
        }
      }
      SplitJoin(shorter, sep);
      var j := Join(parts, [sep]);
      if |parts| > 1 {
        assert j == [p[0]] + Join(shorter, [sep]);
      } else {
        assert j == [p[0]] + Join(shorter, [sep]);
      }
      assert j[1..] == Join(shorter, [sep]);
      assert j[0] == p[0] && p[0] != sep by {
        assert p[0] in parts[0];
      }
      var rest := Split(j[1..], sep);
      assert rest == shorter;
      assert [p[0]] + p[1..] == p;
      assert parts == [p] + parts[1..];
    }
  }

  /** `p` occurs in `s` starting at index `j`. */
  predicate OccursAt(s: string, p: string, j: int) {
    0 <= j && j + |p| <= |s| && s[j..j + |p|] == p
  }

  lemma OccursShift(s: string, p: string, j: int)
    requires |s| > 0 && 1 <= j
    ensures OccursAt(s, p, j) <==> OccursAt(s[1..], p, j - 1)
  {
    if j + |p| <= |s| {
      assert s[j..j + |p|] == s[1..][j - 1..j - 1 + |p|];
    }
  }

  /** First index at which `p` occurs in `s`, as `indexOf` and an unanchored
      `match` report it. */
  function Find(s: string, p: string): (r: Option<nat>)
    ensures r.Some? ==> OccursAt(s, p, r.value)
    ensures r.Some? ==> forall j :: 0 <= j < r.value ==> !OccursAt(s, p, j)
    ensures r.None? ==> forall j :: !OccursAt(s, p, j)
  {
    if |p| > |s| then None
    else if s[..|p|] == p then Some(0)
    else
      var t := Find(s[1..], p);
      assert forall j :: 1 <= j ==> (OccursAt(s, p, j) <==> OccursAt(s[1..], p, j - 1)) by {
        forall j | 1 <= j
          ensures OccursAt(s, p, j) <==> OccursAt(s[1..], p, j - 1)
        {
          OccursShift(s, p, j);
        }
      }
      match t
      case None => None
      case Some(i) => Some(i + 1)
  }

  /** `s` with the first occurrence of `pat` replaced by `rep` taken
      literally; `s` unchanged when `pat` does not occur. */
  function ReplaceFirst(s: string, pat: string, rep: string): string {
    match Find(s, pat)
    case None => s
    case Some(i) => s[..i] + rep + s[i + |pat|..]
  }

  /** The characters that make a `$` special in a replacement template when
      the pattern has no capture groups. */
  predicate IsTemplateMark(c: char) {
    c == '$' || c == '&' || c == '`' || c == '\''
  }

  /** A replacement template in which no `$` is followed by `$`, `&`, a
      backquote or a quote, so that every character stands for itself. */
  predicate Inert(rep: string) {
    forall i :: 0 <= i < |rep| - 1 && rep[i] == '$' ==> !IsTemplateMark(rep[i + 1])
  }

  /** The replacement template of `replace` expanded for a match of a plain
      string pattern (GetSubstitution, section 22.1.3.19.1 of ECMAScript
      2024, with no capture groups): `$$` stands for `$`, `$&` for the
      matched text, `$` and a backquote for the text before the match, and
      `$'` for the text after it; every other character, `$` included,
      stands for itself. */
  function Expand(rep: string, matched: string, before: string, after: string): string
    decreases |rep|
  {
    if |rep| >= 2 && rep[0] == '$' && IsTemplateMark(rep[1]) then
      var piece := match rep[1]
        case '$' => "$"
        case '&' => matched
        case '`' => before
        case _ => after;
      piece + Expand(rep[2..], matched, before, after)
    else if |rep| == 0 then ""
    else [rep[0]] + Expand(rep[1..], matched, before, after)
  }

  /** The search reports the first occurrence: an occurrence at `i` with
      none before it is the one found. */
  lemma FindFirst(s: string, p: string, i: nat)
    requires OccursAt(s, p, i)
    requires forall j :: 0 <= j < i ==> !OccursAt(s, p, j)
    ensures Find(s, p) == Some(i)
  {
    var r := Find(s, p);
    assert r.Some?;
    assert !(r.value < i);
    assert !(r.value > i);
  }

  /** A one-character pattern that occurs nowhere before `i` leaves its
      character out of the first `i` characters. */
  lemma CharAbsentBefore(s: string, c: char, i: nat)
    requires i <= |s|
    requires forall j :: 0 <= j < i ==> !OccursAt(s, [c], j)
    ensures c !in s[..i]
  {
    forall j | 0 <= j < i
      ensures s[j] != c
    {
      assert !OccursAt(s, [c], j);
      assert s[j..j + 1] == [s[j]];
    }
  }

  /** A string is what precedes index `i`, the character at `i`, and what follows. */
  lemma SplitAround(s: string, i: nat)
    requires i < |s|
    ensures s == s[..i] + [s[i]] + s[i + 1..]
  {
  }

  /** `String.prototype.replace` with a string pattern: the first occurrence
      of `pat` replaced by the expansion of the template `rep`. */
  function Replace(s: string, pat: string, rep: string): string {
    match Find(s, pat)
    case None => s
    case Some(i) => s[..i] + Expand(rep, pat, s[..i], s[i + |pat|..]) + s[i + |pat|..]
  }

  /** An inert template expands to itself. */
  lemma {:induction false} ExpandInert(rep: string, matched: string, before: string, after: string)
    requires Inert(rep)
    ensures Expand(rep, matched, before, after) == rep
    decreases |rep|
  {
    if |rep| > 0 {
      assert !(|rep| >= 2 && rep[0] == '$' && IsTemplateMark(rep[1]));
      assert Inert(rep[1..]) by {
        forall i | 0 <= i < |rep[1..]| - 1 && rep[1..][i] == '$'
          ensures !IsTemplateMark(rep[1..][i + 1])
        {
          assert rep[1..][i] == rep[i + 1] && rep[1..][i + 1] == rep[i + 2];
        }
      }
      ExpandInert(rep[1..], matched, before, after);
      assert [rep[0]] + rep[1..] == rep;
    }
  }

  /** With an inert template, `replace` inserts the template literally. */
  lemma ReplaceInert(s: string, pat: string, rep: string)
    requires Inert(rep)
    ensures Replace(s, pat, rep) == ReplaceFirst(s, pat, rep)
  {
    match Find(s, pat)
    case None =>
    case Some(i) =>
      var before, after := s[..i], s[i + |pat|..];
      ExpandInert(rep, pat, before, after);
      assert Replace(s, pat, rep) == before + Expand(rep, pat, before, after) + after;
      assert ReplaceFirst(s, pat, rep) == before + rep + after;
  }

  /** `String.prototype.includes`. */
  predicate Contains(s: string, p: string) {
    Find(s, p).Some?
  }

  /** `includes` holds exactly when `p` occurs somewhere in `s`. */
  lemma ContainsIff(s: string, p: string)
    ensures Contains(s, p) <==> exists j :: OccursAt(s, p, j)
  {
  }

  function LowerChar(c: char): char {
    if 'A' <= c <= 'Z' then (c as int + 32) as char else c
  }

  function UpperChar(c: char): char {
    if 'a' <= c <= 'z' then (c as int - 32) as char else c
  }

  /** `toLowerCase`, restricted to ASCII letters. */
  function Lower(s: string): (r: string)
    ensures |r| == |s|
  {
    seq(|s|, i requires 0 <= i < |s| => LowerChar(s[i]))
  }

  /** Characters of `s` satisfying `keep`, in order: `s.replace(/[^...]/g, '')`. */
  function Keep(s: string, keep: char -> bool): (r: string)
    ensures |r| <= |s|
    ensures forall i :: 0 <= i < |r| ==> keep(r[i])
  {
    if |s| == 0 then ""
    else if keep(s[0]) then [s[0]] + Keep(s[1..], keep)
    else Keep(s[1..], keep)
  }

  /** Every character `keep` accepts survives the filter, so `Keep` is empty
      only when no character is accepted. */
  lemma {:induction false} KeepEmptyIff(s: string, keep: char -> bool)
    ensures Keep(s, keep) == [] <==> forall i :: 0 <= i < |s| ==> !keep(s[i])
  {
    if |s| > 0 {
      KeepEmptyIff(s[1..], keep);
      assert forall i :: 1 <= i < |s| ==> s[i] == s[1..][i - 1];
    }
  }

  /** Filtering distributes over concatenation. */
  lemma {:induction false} KeepAppend(a: string, b: string, keep: char -> bool)
    ensures Keep(a + b, keep) == Keep(a, keep) + Keep(b, keep)
  {
    if |a| > 0 {
      assert (a + b)[0] == a[0];
      assert (a + b)[1..] == a[1..] + b;
      KeepAppend(a[1..], b, keep);
    } else {
      assert a + b == b;
    }
  }

  /** A string that already passes the filter is left unchanged. */
  lemma {:induction false} KeepIdentity(s: string, keep: char -> bool)
    requires forall i :: 0 <= i < |s| ==> keep(s[i])
    ensures Keep(s, keep) == s
  {
    if |s| > 0 {
      assert forall i :: 0 <= i < |s[1..]| ==> s[1..][i] == s[i + 1];
      KeepIdentity(s[1..], keep);
      assert [s[0]] + s[1..] == s;
    }
  }
}
