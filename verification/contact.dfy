/** Contact-field formatting: turning an e-mail or phone value into a
    clickable `mailto:` / `tel:` link.

    Two versions exist in the application script. The one nested inside the
    property formatter is the one the formatter calls; the top-level one of
    the same name is shadowed there and behaves differently (it trims, and it
    keeps `-`, white space and parentheses in the displayed phone number). */
module Contact {
  import opened Text
  import opened Icons

  /** Characters a `tel:` target keeps: the complement of `[^\d+]`. */
  predicate IsDialChar(c: char) {
    IsDigit(c) || c == '+'
  }

  /** Characters the standalone formatter keeps for display: the complement
      of `[^\d+\-\s()]`. */
  predicate IsPhoneDisplayChar(c: char) {
    IsDigit(c) || c == '+' || c == '-' || IsSpace(c) || c == '(' || c == ')'
  }

  /** `<a href="HREF" class="CLASS">TEXT</a>`. */
  function Anchor(href: string, cls: string, text: string): string {
    "<a href=\"" + href + "\" class=\"" + cls + "\">" + text + "</a>"
  }

  /** The digits and `+` of a value, in order: the target of a `tel:` link. */
  function DialString(value: string): (r: string)
    ensures forall i :: 0 <= i < |r| ==> IsDialChar(r[i])
    ensures r == [] <==> forall i :: 0 <= i < |value| ==> !IsDialChar(value[i])
  {
    KeepEmptyIff(value, IsDialChar);
    Keep(value, IsDialChar)
  }

  /** The `tel:` target of a concatenation is the concatenation of the
      targets: the filter looks at one character at a time. */
  lemma DialStringAppend(a: string, b: string)
    ensures DialString(a + b) == DialString(a) + DialString(b)
  {
    KeepAppend(a, b, IsDialChar);
  }

  /** A single character is kept exactly when it is a digit or `+`. */
  lemma DialStringChar(c: char)
    ensures DialString([c]) == if IsDialChar(c) then [c] else []
  {
    assert [c][1..] == [];
  }

  /** White space holds no digit or `+`, so trimming a value does not change
      the number it dials. */
  lemma DialStringTrim(v: string)
    ensures DialString(Trim(v)) == DialString(v)
  {
    var a := TrimStart(v);
    var lead := TrimStartRest(v);
    var trail := TrimEndRest(a);
    SpaceDialsNothing(lead);
    SpaceDialsNothing(trail);
    var m := TrimEnd(a);
    assert v == lead + a;
    assert a == m + trail;
    assert Trim(v) == m;
    DialStringAppend(lead, a);
    DialStringAppend(m, trail);
    assert DialString(v) == DialString(lead) + DialString(a);
    assert DialString(a) == DialString(m) + DialString(trail);
  }

  /** White space alone dials nothing. */
  lemma SpaceDialsNothing(s: string)
    requires AllSpace(s)
    ensures DialString(s) == []
  {
    KeepEmptyIff(s, IsDialChar);
  }

  /** The formatter's own contact helper. An e-mail value becomes a `mailto:`
      link exactly when it holds `@`; a phone or mobile value becomes a `tel:`
      link exactly when it holds a digit or `+`, dialling its digits and `+`
      in order, with the original value as the link text; every other value
      is returned unchanged. */
  function FormatContact(value: string, icon: Icon): (r: string)
    ensures r != value <==>
      || (icon == Envelope && '@' in value)
      || (IsPhone(icon) && exists i :: 0 <= i < |value| && IsDialChar(value[i]))
    ensures icon == Envelope && '@' in value ==> r == Anchor("mailto:" + value, "contact-link", value)
    ensures IsPhone(icon) && r != value ==> r == Anchor("tel:" + DialString(value), "contact-link", value)
    ensures !IsContact(icon) ==> r == value
  {
    if icon == Envelope then
      if '@' in value then
        AnchorLonger("mailto:" + value, "contact-link", value);
        Anchor("mailto:" + value, "contact-link", value)
      else value
    else if IsPhone(icon) then
      var clean := DialString(value);
      if clean != [] then
        AnchorLonger("tel:" + clean, "contact-link", value);
        Anchor("tel:" + clean, "contact-link", value)
      else value
    else value
  }

  /** A link is strictly longer than its text, so it never equals it. */
  lemma AnchorLonger(href: string, cls: string, text: string)
    ensures |Anchor(href, cls, text)| > |text|
  {
  }

  /** The shadowed top-level helper. It trims the value first; an e-mail
      value with `@` becomes a `mailto:` link; a phone or mobile value ALWAYS
      becomes a `tel:` link, dialling the digits and `+` of the value and
      showing it with only digits, `+`, `-`, white space and parentheses
      kept; anything else is the trimmed value. */
  function FormatContactStandalone(value: string, icon: Icon): (r: string)
    ensures icon == Envelope && '@' in Trim(value) ==>
      r == Anchor("mailto:" + Trim(value), "contact-link email-link", Trim(value))
    ensures IsPhone(icon) ==>
      r == Anchor("tel:" + DialString(value), "contact-link phone-link", Keep(Trim(value), IsPhoneDisplayChar))
    ensures !IsPhone(icon) && !(icon == Envelope && '@' in Trim(value)) ==> r == Trim(value)
  {
    var v := Trim(value);
    if icon == Envelope && '@' in v then
      Anchor("mailto:" + v, "contact-link email-link", v)
    else if IsPhone(icon) then
      var shown := Keep(v, IsPhoneDisplayChar);
      DialLinkTarget(v);
      DialStringTrim(value);
      Anchor("tel:" + DialString(shown), "contact-link phone-link", shown)
    else v
  }

  /** The displayed phone number holds only digits, `+`, `-`, white space and
      parentheses, and the link dials exactly the digits and `+` of what is
      displayed. */
  lemma StandalonePhoneShown(value: string, icon: Icon)
    requires IsPhone(icon)
    ensures var shown := Keep(Trim(value), IsPhoneDisplayChar);
      && (forall i :: 0 <= i < |shown| ==> IsPhoneDisplayChar(shown[i]))
      && FormatContactStandalone(value, icon) == Anchor("tel:" + DialString(shown), "contact-link phone-link", shown)
  {
    DialLinkTarget(Trim(value));
    DialStringTrim(value);
  }

  /** Trimming the value beforehand changes nothing: the helper trims it. */
  lemma StandaloneTrimFirst(value: string, icon: Icon)
    ensures FormatContactStandalone(Trim(value), icon) == FormatContactStandalone(value, icon)
  {
    TrimIdempotent(value);
    if IsPhone(icon) {
      DialStringTrim(value);
    }
  }

  /** Filtering for display first loses no dial character: the `tel:` target
      computed from the displayed number equals the one computed from the
      value itself. */
  lemma {:induction false} DialLinkTarget(v: string)
    ensures DialString(Keep(v, IsPhoneDisplayChar)) == DialString(v)
  {
    if |v| > 0 {
      DialLinkTarget(v[1..]);
    }
  }

  /** The `tel:` target of a value that is already pure digits and `+` is the
      value itself. */
  lemma CleanNumberDialsItself(v: string)
    requires forall i :: 0 <= i < |v| ==> IsDialChar(v[i])
    ensures DialString(v) == v
  {
    KeepIdentity(v, IsDialChar);
  }
}
