/** Right-to-left support for the response area of the chat page.

    After the reply is rendered, the page tests the whole text of the
    response area for Arabic script. When there is some, the area and every
    `p`, `div`, `span` or `li` inside it whose own text holds Arabic are
    marked right-to-left (class `rtl-content`, `dir="rtl"`, `lang="ar"`),
    and every `.property-feature` inside it whose text holds Arabic gets
    `lang="ar"`. When there is none, the marks are taken off the area and
    off every element inside it that carries `lang="ar"` (the value compared
    without regard to ASCII case, as HTML does). An area with no
    text at all is left alone.

    An element is reduced to what the detection reads and writes: its tag
    name, its text content, its class list and its `dir` and `lang`
    attributes. The elements inside the area are listed in document order;
    the text of each is part of the text of the area. */
module Arabic {
  import opened Text

  /** The character class of the detection pattern: the Arabic block
      (U+0600 to U+06FF), Arabic Supplement (U+0750 to U+077F), Arabic
      Extended-A (U+08A0 to U+08FF) and the Arabic presentation forms
      (U+FB50 to U+FDFF and U+FE70 to U+FEFF). */
  predicate IsArabic(c: char) {
    || ('\U{0600}' <= c <= '\U{06FF}')
    || ('\U{0750}' <= c <= '\U{077F}')
    || ('\U{08A0}' <= c <= '\U{08FF}')
    || ('\U{FB50}' <= c <= '\U{FDFF}')
    || ('\U{FE70}' <= c <= '\U{FEFF}')
  }

  /** Some character of `s` is Arabic. */
  predicate HasArabic(s: string) {
    exists i :: 0 <= i < |s| && IsArabic(s[i])
  }

  /** `arabicRegex.test(s)`: the unanchored one-character pattern, tried at
      every position from the left. */
  function TestArabic(s: string): (r: bool)
    ensures r <==> HasArabic(s)
  {
    if |s| == 0 then false
    else if IsArabic(s[0]) then true
    else
      var r := TestArabic(s[1..]);
      assert forall i :: 1 <= i < |s| ==> s[i] == s[1..][i - 1];
      assert HasArabic(s[1..]) ==> HasArabic(s) by {
        if HasArabic(s[1..]) {
          var i :| 0 <= i < |s[1..]| && IsArabic(s[1..][i]);
          assert IsArabic(s[i + 1]);
        }
      }
      r
  }

  /** What the detection sees of an element. */
  datatype Element = Element(
    tag: string,         // lower-case tag name
    text: string,        // `textContent`
    classes: set<string>,
    dir: Option<string>,
    lang: Option<string>)

  /** The response area and the elements inside it, in document order. */
  datatype Region = Region(root: Element, inner: seq<Element>)

  const RtlClass: string := "rtl-content"

  /** Matched by the selector `p, div, span, li`. */
  predicate IsBlock(e: Element) {
    e.tag == "p" || e.tag == "div" || e.tag == "span" || e.tag == "li"
  }

  /** Matched by the selector `.property-feature`. */
  predicate IsFeature(e: Element) {
    "property-feature" in e.classes
  }

  /** Carries all three right-to-left marks. */
  predicate Marked(e: Element) {
    RtlClass in e.classes && e.dir == Some("rtl") && e.lang == Some("ar")
  }

  /** Carries none of the three marks. */
  predicate Unmarked(e: Element) {
    RtlClass !in e.classes && e.dir.None? && e.lang.None?
  }

  /** Matched by the selector `[lang="ar"]`: in an HTML document the value
      of `lang` is compared without regard to ASCII case. */
  predicate LangAr(e: Element) {
    e.lang.Some? && Lower(e.lang.value) == "ar"
  }

  /** The elements differ at most in their class list and attributes. */
  predicate SameContent(a: Element, b: Element) {
    a.tag == b.tag && a.text == b.text
  }

  /** Add the class and set both attributes; everything else is kept. */
  function Mark(e: Element): (r: Element)
    ensures Marked(r) && SameContent(r, e)
    ensures r.classes == e.classes + {RtlClass}
  {
    e.(classes := e.classes + {RtlClass}, dir := Some("rtl"), lang := Some("ar"))
  }

  /** Remove the class and both attributes; everything else is kept. */
  function Unmark(e: Element): (r: Element)
    ensures Unmarked(r) && SameContent(r, e)
    ensures r.classes == e.classes - {RtlClass}
  {
    e.(classes := e.classes - {RtlClass}, dir := None, lang := None)
  }

  /** The first pass of the Arabic case: every block element whose text
      holds Arabic is marked, every other element is left as it is. */
  function MarkBlocks(es: seq<Element>): (r: seq<Element>)
    ensures |r| == |es|
    ensures forall i :: 0 <= i < |es| ==> SameContent(r[i], es[i])
    ensures forall i :: 0 <= i < |es| && IsBlock(es[i]) && HasArabic(es[i].text) ==> r[i] == Mark(es[i])
    ensures forall i :: 0 <= i < |es| && !(IsBlock(es[i]) && HasArabic(es[i].text)) ==> r[i] == es[i]
  {
    seq(|es|, i requires 0 <= i < |es| => if IsBlock(es[i]) && TestArabic(es[i].text) then Mark(es[i]) else es[i])
  }

  /** The second pass of the Arabic case: every property feature whose text
      holds Arabic gets `lang="ar"`, every other element is left as it is. */
  function MarkFeatures(es: seq<Element>): (r: seq<Element>)
    ensures |r| == |es|
    ensures forall i :: 0 <= i < |es| ==> SameContent(r[i], es[i]) && r[i].classes == es[i].classes && r[i].dir == es[i].dir
    ensures forall i :: 0 <= i < |es| && IsFeature(es[i]) && HasArabic(es[i].text) ==> r[i].lang == Some("ar")
    ensures forall i :: 0 <= i < |es| && !(IsFeature(es[i]) && HasArabic(es[i].text)) ==> r[i] == es[i]
  {
    seq(|es|, i requires 0 <= i < |es| => if IsFeature(es[i]) && TestArabic(es[i].text) then es[i].(lang := Some("ar")) else es[i])
  }

  /** The non-Arabic case inside the area: every element carrying
      `lang="ar"`, in any ASCII case, loses all three marks, every other
      element is left as it is. */
  function UnmarkArabic(es: seq<Element>): (r: seq<Element>)
    ensures |r| == |es|
    ensures forall i :: 0 <= i < |es| ==> SameContent(r[i], es[i])
    ensures forall i :: 0 <= i < |es| && LangAr(es[i]) ==> r[i] == Unmark(es[i])
    ensures forall i :: 0 <= i < |es| && !LangAr(es[i]) ==> r[i] == es[i]
  {
    seq(|es|, i requires 0 <= i < |es| => if LangAr(es[i]) then Unmark(es[i]) else es[i])
  }

  /** `detectAndSetArabic` on an existing response area. */
  function Detect(g: Region): (d: Region)
    ensures g.root.text == "" ==> d == g
    ensures SameContent(d.root, g.root) && |d.inner| == |g.inner|
    ensures forall i :: 0 <= i < |g.inner| ==> SameContent(d.inner[i], g.inner[i])
  {
    if g.root.text == "" then g
    else if TestArabic(g.root.text) then Region(Mark(g.root), MarkFeatures(MarkBlocks(g.inner)))
    else Region(Unmark(g.root), UnmarkArabic(g.inner))
  }

  /** With Arabic in the area: the area is marked; an element inside it is
      marked exactly when it is a block element with Arabic text; a property
      feature with Arabic text has `lang="ar"`; every element that is
      neither keeps its class list and attributes. */
  lemma DetectArabic(g: Region)
    requires HasArabic(g.root.text)
    ensures var d := Detect(g);
      && d.root == Mark(g.root)
      && (forall i :: 0 <= i < |g.inner| && IsBlock(g.inner[i]) && HasArabic(g.inner[i].text) ==> d.inner[i] == Mark(g.inner[i]))
      && (forall i :: 0 <= i < |g.inner| && IsFeature(g.inner[i]) && HasArabic(g.inner[i].text) ==> d.inner[i].lang == Some("ar"))
      && (forall i :: 0 <= i < |g.inner| && !HasArabic(g.inner[i].text) ==> d.inner[i] == g.inner[i])
      && (forall i :: 0 <= i < |g.inner| && !IsBlock(g.inner[i]) && !IsFeature(g.inner[i]) ==> d.inner[i] == g.inner[i])
  {
    assert g.root.text != "";
    var m := MarkBlocks(g.inner);
    var d := Detect(g);
    assert d.inner == MarkFeatures(m);
    forall i | 0 <= i < |g.inner| && IsFeature(g.inner[i]) && HasArabic(g.inner[i].text)
      ensures d.inner[i].lang == Some("ar")
    {
      assert IsFeature(m[i]) by {
        if IsBlock(g.inner[i]) {
          assert m[i].classes == g.inner[i].classes + {RtlClass};
        }
      }
    }
  }

  /** The feature pass adds nothing when every property feature is itself a
      block element, as the formatter's `div` features are: those were
      marked by the first pass already. */
  lemma {:induction false} FeaturePassRedundant(es: seq<Element>)
    requires forall i :: 0 <= i < |es| && IsFeature(es[i]) ==> IsBlock(es[i])
    ensures MarkFeatures(MarkBlocks(es)) == MarkBlocks(es)
  {
    var m := MarkBlocks(es);
    var f := MarkFeatures(m);
    forall i | 0 <= i < |es|
      ensures f[i] == m[i]
    {
      if IsBlock(es[i]) && HasArabic(es[i].text) {
        assert m[i] == Mark(es[i]);
      } else {
        assert m[i] == es[i];
      }
    }
  }

  /** Without Arabic in a non-empty area: the area loses all three marks;
      every element inside it that carried `lang="ar"`, in any ASCII case,
      loses them too and every other element is left as it is, so
      afterwards no element in the area carries `lang="ar"` in any case. */
  lemma DetectNonArabic(g: Region)
    requires g.root.text != "" && !HasArabic(g.root.text)
    ensures var d := Detect(g);
      && d.root == Unmark(g.root)
      && (forall i :: 0 <= i < |g.inner| && LangAr(g.inner[i]) ==> d.inner[i] == Unmark(g.inner[i]))
      && (forall i :: 0 <= i < |g.inner| && !LangAr(g.inner[i]) ==> d.inner[i] == g.inner[i])
      && (forall i :: 0 <= i < |g.inner| ==> !LangAr(d.inner[i]))
  {
  }

  /** Running the detection again changes nothing. */
  lemma DetectIdempotent(g: Region)
    ensures Detect(Detect(g)) == Detect(g)
  {
    var d := Detect(g);
    if g.root.text != "" {
      if HasArabic(g.root.text) {
        var m := MarkBlocks(g.inner);
        var f := MarkFeatures(m);
        assert d.inner == f;
        var m2 := MarkBlocks(f);
        var f2 := MarkFeatures(m2);
        forall i | 0 <= i < |f|
          ensures f2[i] == f[i]
        {
          MarkedTwice(g.inner[i], m[i], f[i], m2[i], f2[i]);
        }
        assert Mark(Mark(g.root)) == Mark(g.root);
      } else {
        var u := UnmarkArabic(g.inner);
        assert d.inner == u;
        assert UnmarkArabic(u) == u;
        assert Unmark(Unmark(g.root)) == Unmark(g.root);
      }
    }
  }

  /** One element through both passes twice ends where it was after once. */
  lemma MarkedTwice(e: Element, m: Element, f: Element, m2: Element, f2: Element)
    requires m == (if IsBlock(e) && HasArabic(e.text) then Mark(e) else e)
    requires f == (if IsFeature(m) && HasArabic(m.text) then m.(lang := Some("ar")) else m)
    requires m2 == (if IsBlock(f) && HasArabic(f.text) then Mark(f) else f)
    requires f2 == (if IsFeature(m2) && HasArabic(m2.text) then m2.(lang := Some("ar")) else m2)
    ensures f2 == f
  {
    if IsBlock(e) && HasArabic(e.text) {
      assert Mark(Mark(e)) == Mark(e);
    }
  }

  /** Arabic in part of a text is Arabic in the text. */
  lemma ArabicInPart(s: string, t: string)
    requires Contains(s, t) && HasArabic(t)
    ensures HasArabic(s)
  {
    var j := Find(s, t).value;
    var i :| 0 <= i < |t| && IsArabic(t[i]);
    assert s[j..j + |t|][i] == s[j + i];
  }

  /** Every element's text is part of the area's text. */
  predicate WellFormed(g: Region) {
    forall i :: 0 <= i < |g.inner| ==> Contains(g.root.text, g.inner[i].text)
  }

  /** Because an element's text is part of the area's, every block element
      with Arabic text ends up marked, whatever branch the detection took;
      and the detection keeps the texts, so the area stays well formed. */
  lemma DetectMarksArabicBlocks(g: Region)
    requires WellFormed(g)
    ensures WellFormed(Detect(g))
    ensures forall i :: 0 <= i < |g.inner| && IsBlock(g.inner[i]) && HasArabic(g.inner[i].text) ==>
      Marked(Detect(g).inner[i])
  {
    var d := Detect(g);
    forall i | 0 <= i < |g.inner| && IsBlock(g.inner[i]) && HasArabic(g.inner[i].text)
      ensures Marked(d.inner[i])
    {
      ArabicInPart(g.root.text, g.inner[i].text);
      DetectArabic(g);
    }
  }
}
