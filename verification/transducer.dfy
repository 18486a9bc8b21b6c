/** The property-listing formatter: a single pass over the lines of a reply
    that turns `### ` headers and numbered items into property blocks,
    `label: value` lines into features with icons, image references into
    thumbnails, and everything else into verbatim text.

    The running state of the formatter's loop (open block flag, pending feature
    container, buffered continuation lines) is an explicit `State` threaded
    through `Step`; the output is a sequence of `Fragment`s whose rendering,
    concatenated with no separator, is the formatter's result. */
module Transducer {
  import opened Text
  import opened Icons
  import opened Contact
  import opened Patterns

  /** A feature whose value is still being collected from following lines. */
  datatype Pending = Pending(title: string, icon: Icon)

  /** One emitted piece of markup. Block structure is kept apart from text
      so that it can be reasoned about even when the text itself holds tags. */
  datatype Fragment =
    | ItemOpen                   // opens a property block
    | ItemHeader(title: string)  // the block's header line
    | ItemClose                  // closes a property block
    | Break                      // a blank input line
    | SubItem(text: string)      // a standalone `- ` bullet inside a block
    | Feature(title: string, icon: Icon, value: string)  // a feature with its value on the same line
    | Flushed(feature: Pending, buffer: seq<string>)     // a pending feature and its continuation lines
    | Line(text: string)         // a verbatim or image-rewritten line

  /** The markup of one fragment. */
  function Render(f: Fragment): string {
    match f
    case ItemOpen => "<div class=\"property-item\">"
    case ItemHeader(t) => "<div class=\"property-header\">" + Glyph(House) + " " + t + "</div>"
    case ItemClose => "</div>"
    case Break => "<br>"
    case SubItem(t) => "<div class=\"property-sub-item\"><span class=\"feature-icon\">\U{2022}</span> " + t + "</div>"
    case Feature(title, icon, value) => CompleteFeature(title, icon, value)
    case Flushed(p, buffer) => Fill(p, buffer)
    case Line(t) => t
  }

  /** `formattedLines.join('')`. */
  function RenderAll(fs: seq<Fragment>): string {
    if |fs| == 0 then "" else Render(fs[0]) + RenderAll(fs[1..])
  }

  /** The loop state: whether a property block is open, the pending feature
      (if any) and its buffered continuation lines, in input order. */
  datatype State = State(inBlock: bool, pending: Option<Pending>, buffer: seq<string>)

  const Start: State := State(false, None, [])

  /** Lines are buffered only while a feature is pending. */
  predicate Valid(st: State) {
    st.pending.None? ==> st.buffer == []
  }

  /** A new state and the fragments emitted on the way to it. */
  datatype Emit = Emit(st: State, out: seq<Fragment>)

  /** `<div class="property-feature[ contact-info]"><span class="feature-icon">ICON</span><strong>`:
      everything a feature's markup holds before its label. */
  function FeatureHead(icon: Icon): string {
    "<div class=\"property-feature" + (if IsContact(icon) then " contact-info" else "") + "\">"
    + "<span class=\"feature-icon\">" + Glyph(icon) + "</span><strong>"
  }

  /** The feature's markup up to and including its label: `HEAD` + `TITLE:</strong>`. */
  function FeatureOpen(title: string, icon: Icon): string {
    FeatureHead(icon) + title + ":</strong>"
  }

  /** The container held for a feature with no value yet. */
  function Container(p: Pending): string {
    FeatureOpen(p.title, p.icon) + "</div>"
  }

  /** A feature whose value was on its own line; contact values are linked. */
  function CompleteFeature(title: string, icon: Icon, value: string): string {
    FeatureOpen(title, icon) + " " + (if IsContact(icon) then FormatContact(value, icon) else value) + "</div>"
  }

  /** The markup a pending feature is flushed as: its container, with the
      buffered lines joined by `<br>` put before the container's first
      `</div>` when any were buffered. The joined lines are the replacement
      template of `replace`, so a `$` in them followed by `$`, `&`, a
      backquote or a quote is expanded rather than copied. */
  function Fill(p: Pending, buffer: seq<string>): string {
    if buffer == [] then Container(p)
    else Replace(Container(p), "</div>", " " + Join(buffer, "<br>") + "</div>")
  }

  /** The flush the formatter evidently intends: the buffered lines are
      inserted as they are. */
  function FillIntended(p: Pending, buffer: seq<string>): string {
    if buffer == [] then Container(p)
    else ReplaceFirst(Container(p), "</div>", " " + Join(buffer, "<br>") + "</div>")
  }

  /** `flushPendingFeature`: emit the pending feature, if any, and clear both
      the pending feature and its buffer; with nothing pending, do nothing. */
  function Flush(st: State): (e: Emit)
    ensures st.pending.None? ==> e == Emit(st, [])
    ensures st.pending.Some? ==>
      e == Emit(st.(pending := None, buffer := []), [Flushed(st.pending.value, st.buffer)])
  {
    match st.pending
    case None => Emit(st, [])
    case Some(p) => Emit(st.(pending := None, buffer := []), [Flushed(p, st.buffer)])
  }

  /** A header or numbered item: flush, close the open block if any, open a
      new one with its header. */
  function OpenBlock(st: State, title: string): Emit {
    var f := Flush(st);
    Emit(f.st.(inBlock := true), f.out + (if st.inBlock then [ItemClose] else []) + [ItemOpen, ItemHeader(title)])
  }

  /** A recognised `label: value`: flush, then emit the feature at once when
      the value is non-empty, or hold it pending otherwise. */
  function StartFeature(st: State, title: string, icon: Icon, value: string): Emit {
    var f := Flush(st);
    if value != "" then Emit(f.st, f.out + [Feature(title, icon, value)])
    else Emit(f.st.(pending := Some(Pending(title, icon))), f.out)
  }

  /** Append one continuation piece to the pending feature's buffer. */
  function Buffer(st: State, piece: string): Emit {
    Emit(st.(buffer := st.buffer + [piece]), [])
  }

  /** A colon-less `- ` bullet inside a block: continuation of a pending
      feature, or a standalone sub-item. */
  function Bullet(st: State, content: string): Emit {
    if st.pending.Some? then Buffer(st, "\U{2022} " + content) else Emit(st, [SubItem(content)])
  }

  /** What a non-blank, non-opening line was recognised as. */
  datatype Body =
    | FeatureLine(title: string, icon: Icon, value: string)  // `- label: v`, `<strong>label:</strong> v`, `key: v`
    | BulletLine(content: string)                          // colon-less `- ` bullet inside a block
    | ImageLine(text: string)                              // a line with image references, rewritten
    | TextLine(text: string)                               // anything else

  /** What a trimmed line was recognised as. */
  datatype Kind =
    | Blank
    | Header(title: string)
    | Numbered(rest: Option<Body>)  // the remainder after the numeral, if any
    | Other(body: Body)

  /** A `- ` bullet inside a block, by its trimmed content: a feature when
      a colon follows at least one character, labelled by the text before
      the first colon (its icon found from that text trimmed and lower-cased)
      with the trimmed rest as value; a plain bullet otherwise. */
  function BulletBody(content: string): Body {
    match Find(content, ":")
    case Some(ci) =>
      if ci > 0 then FeatureLine(content[..ci], Lookup(Lower(Trim(content[..ci]))), Trim(content[ci + 1..]))
      else BulletLine(content)
    case None => BulletLine(content)
  }

  /** Recognition of the line kinds after blank, header and numbered, in the
      formatter's priority order: bullets and `<strong>` labels (inside a block
      only), plain table labels, image references, plain text. */
  function ClassifyBody(inBlock: bool, line: string): Body {
    if StartsWith(line, "- ") && inBlock then BulletBody(Trim(line[2..]))
    else
      var bold := StrongLabel(line);
      if bold.Some? && inBlock then
        FeatureLine(bold.value.name, Lookup(Lower(bold.value.name)), Trim(bold.value.value))
      else
        match KeyLabel(line)
        case Some(m) => FeatureLine(Capitalize(Table[m.index].0), Table[m.index].1, Trim(line[m.end..]))
        case None =>
          if Contains(line, "![Image") then ImageLine(ReplaceImages(line)) else TextLine(line)
  }

  /** Recognition of a trimmed line. A numbered item's remainder is
      recognised as inside a block, since the item opens one. */
  function ClassifyLine(inBlock: bool, line: string): Kind {
    if line == "" then Blank
    else if StartsWith(line, "### ") then Header(line[4..])
    else if IsNumbered(line) then
      var rest := StripNumber(line);
      Numbered(if rest == "" then None else Some(ClassifyBody(true, rest)))
    else Other(ClassifyBody(inBlock, line))
  }

  /** The state change and output for a recognised body line. */
  function ApplyBody(st: State, b: Body): Emit {
    match b
    case FeatureLine(title, icon, value) => StartFeature(st, title, icon, value)
    case BulletLine(content) => Bullet(st, content)
    case ImageLine(text) =>
      var f := Flush(st);
      Emit(f.st, f.out + [Line(text)])
    case TextLine(text) =>
      if st.pending.Some? then Buffer(st, text) else Emit(st, [Line(text)])
  }

  /** The state change and output for a recognised line. */
  function Apply(st: State, k: Kind): Emit {
    match k
    case Blank =>
      if st.pending.Some? then Buffer(st, "")
      else
        var f := Flush(st);
        Emit(f.st, f.out + [Break])
    case Header(title) => OpenBlock(st, title)
    case Numbered(rest) =>
      var o := OpenBlock(st, "Property Details");
      if rest.None? then o
      else
        var c := ApplyBody(o.st, rest.value);
        Emit(c.st, o.out + c.out)
    case Other(b) => ApplyBody(st, b)
  }

  /** One iteration of the formatter's loop on a raw input line. */
  function Step(st: State, raw: string): Emit {
    Apply(st, ClassifyLine(st.inBlock, Trim(raw)))
  }

  /** The loop over all lines, concatenating what each step emits. */
  function Run(st: State, lines: seq<string>): Emit
    decreases |lines|
  {
    if |lines| == 0 then Emit(st, [])
    else
      var e := Step(st, lines[0]);
      var r := Run(e.st, lines[1..]);
      Emit(r.st, e.out + r.out)
  }

  /** End of input: flush the pending feature and close the open block. */
  function Finish(st: State): (e: Emit)
    ensures st.pending.Some? ==>
      e.out == [Flushed(st.pending.value, st.buffer)] + (if st.inBlock then [ItemClose] else [])
    ensures st.pending.None? ==> e.out == (if st.inBlock then [ItemClose] else [])
    ensures !e.st.inBlock && e.st.pending.None? && (Valid(st) ==> e.st.buffer == [])
  {
    var f := Flush(st);
    Emit(f.st.(inBlock := false), f.out + (if st.inBlock then [ItemClose] else []))
  }

  /** Everything the formatter emits for `text`, in order. */
  function Fragments(text: string): seq<Fragment> {
    var r := Run(Start, Split(Bold(text), '\n'));
    r.out + Finish(r.st).out
  }

  /** `formatPropertyText`. */
  function Format(text: string): string {
    RenderAll(Fragments(text))
  }
}
