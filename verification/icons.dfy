/** The feature-label vocabulary of the property formatter: an ordered table
    from lower-case label text to an icon, looked up by substring containment
    in either direction, first entry wins. */
module Icons {
  import opened Text

  datatype Icon =
    | Neighbourhood  // U+1F3D8 houses
    | Pin            // U+1F4CD round pushpin
    | House          // U+1F3E0 house
    | Ruler          // U+1F4D0 triangular ruler
    | Bed            // U+1F6CF bed
    | Shower         // U+1F6BF shower
    | Door           // U+1F6AA door
    | Sparkles       // U+2728 sparkles
    | MoneyBag       // U+1F4B0 money bag
    | Card           // U+1F4B3 credit card
    | Info           // U+2139 information source
    | Camera         // U+1F4F8 camera with flash
    | Envelope       // U+1F4E7 e-mail
    | Telephone      // U+1F4DE telephone receiver
    | Mobile         // U+1F4F1 mobile phone
    | Tag            // U+1F3F7 label: the default for unknown labels

  /** The glyph the markup shows for an icon, code point for code point as the
      formatter writes it (including the U+FE0F variation selectors). */
  function Glyph(i: Icon): string {
    match i
    case Neighbourhood => "\U{1F3D8}\U{FE0F}"
    case Pin => "\U{1F4CD}"
    case House => "\U{1F3E0}"
    case Ruler => "\U{1F4D0}"
    case Bed => "\U{1F6CF}\U{FE0F}"
    case Shower => "\U{1F6BF}"
    case Door => "\U{1F6AA}"
    case Sparkles => "\U{2728}"
    case MoneyBag => "\U{1F4B0}"
    case Card => "\U{1F4B3}"
    case Info => "\U{2139}\U{FE0F}"
    case Camera => "\U{1F4F8}"
    case Envelope => "\U{1F4E7}"
    case Telephone => "\U{1F4DE}"
    case Mobile => "\U{1F4F1}"
    case Tag => "\U{1F3F7}\U{FE0F}"
  }

  /** Icons that make a feature a contact field (e-mail, phone, mobile). */
  predicate IsContact(i: Icon) {
    i == Envelope || i == Telephone || i == Mobile
  }

  predicate IsPhone(i: Icon) {
    i == Telephone || i == Mobile
  }

  /** The label table in declaration order; the order decides ties. */
  const Table: seq<(string, Icon)> := [
    ("compound name", Neighbourhood),
    ("location", Pin),
    ("property type", House),
    ("total property size", Ruler),
    ("built-up area", Ruler),
    ("land area", Ruler),
    ("roof", Ruler),
    ("bedrooms", Bed),
    ("number of bedrooms", Bed),
    ("bathrooms", Shower),
    ("number of bathrooms", Shower),
    ("bedroom & bathroom details", Door),
    ("bedrooms and bathrooms details", Door),
    ("bedrooms & bathrooms details", Door),
    ("all amenities", Sparkles),
    ("amenities", Sparkles),
    ("total price", MoneyBag),
    ("payment plan", Card),
    ("additional information", Info),
    ("images", Camera),
    ("email", Envelope),
    ("e-mail", Envelope),
    ("email address", Envelope),
    ("contact email", Envelope),
    ("phone", Telephone),
    ("phone number", Telephone),
    ("mobile", Mobile),
    ("mobile number", Mobile),
    ("contact number", Telephone),
    ("telephone", Telephone),
    ("whatsapp", Mobile),
    ("contact", Telephone),
    ("contact information", Telephone)
  ]

  /** A label hits a table key when either contains the other. */
  predicate Hits(name: string, key: string) {
    Contains(name, key) || Contains(key, name)
  }

  /** Entry `i` of `table` is the first entry the label hits. */
  predicate FirstHitIn(table: seq<(string, Icon)>, name: string, i: int) {
    && 0 <= i < |table|
    && Hits(name, table[i].0)
    && forall j :: 0 <= j < i ==> !Hits(name, table[j].0)
  }

  /** Entry `i` of the label table is the first entry the label hits. */
  predicate FirstHit(name: string, i: int) {
    FirstHitIn(Table, name, i)
  }

  /** Scan of a label table from entry `k` on. */
  function LookupIn(table: seq<(string, Icon)>, name: string, k: nat): Icon
    requires k <= |table|
    decreases |table| - k
  {
    if k == |table| then Tag
    else if Hits(name, table[k].0) then table[k].1
    else LookupIn(table, name, k + 1)
  }

  /** The icon for a (lower-cased) label: the icon of the first entry the
      label hits, or the default tag when it hits none. */
  function Lookup(name: string): Icon {
    LookupIn(Table, name, 0)
  }

  /** The scan from `k` yields the default tag when the label hits no entry
      from `k` on. */
  lemma {:induction false} LookupInMiss(table: seq<(string, Icon)>, name: string, k: nat)
    requires k <= |table|
    requires forall j :: k <= j < |table| ==> !Hits(name, table[j].0)
    ensures LookupIn(table, name, k) == Tag
    decreases |table| - k
  {
    if k < |table| {
      LookupInMiss(table, name, k + 1);
    }
  }

  /** When the label hits entry `j`, the scan from `k <= j` yields the icon of
      the first entry it hits from `k` on, which is `i`. */
  lemma {:induction false} LookupInHit(table: seq<(string, Icon)>, name: string, k: nat, j: nat) returns (i: nat)
    requires k <= j < |table| && Hits(name, table[j].0)
    ensures k <= i <= j && Hits(name, table[i].0)
    ensures forall j' :: k <= j' < i ==> !Hits(name, table[j'].0)
    ensures LookupIn(table, name, k) == table[i].1
    decreases j - k
  {
    if Hits(name, table[k].0) {
      i := k;
    } else {
      i := LookupInHit(table, name, k + 1, j);
    }
  }

  /** Lookup yields the default tag exactly when the label hits no entry,
      and otherwise the icon of the first entry it hits. */
  lemma LookupSpec(name: string)
    ensures Lookup(name) == Tag <==> forall j :: 0 <= j < |Table| ==> !Hits(name, Table[j].0)
    ensures Lookup(name) != Tag ==> exists i :: FirstHit(name, i) && Lookup(name) == Table[i].1
  {
    TagNotInTable();
    if j :| 0 <= j < |Table| && Hits(name, Table[j].0) {
      var i := LookupInHit(Table, name, 0, j);
      assert FirstHit(name, i);
    } else {
      LookupInMiss(Table, name, 0);
    }
  }

  /** The default icon never appears in the table, so it signals "no hit". */
  lemma TagNotInTable()
    ensures forall j :: 0 <= j < |Table| ==> Table[j].1 != Tag
  {
  }

  /** Lookup agrees with the declarative reading: whichever entry is the first
      hit, its icon is the answer. */
  lemma LookupIsFirstHit(name: string, i: int)
    requires FirstHit(name, i)
    ensures Lookup(name) == Table[i].1
  {
    TagNotInTable();
    LookupSpec(name);
    var r := Lookup(name);
    assert r != Tag;
    var i' :| FirstHit(name, i') && r == Table[i'].1;
    assert i' == i;
  }

  /** An empty label is contained in every key, so it takes the first entry. */
  lemma EmptyLabelIsNeighbourhood()
    ensures Lookup("") == Neighbourhood
  {
    assert OccursAt(Table[0].0, "", 0);
    assert Contains(Table[0].0, "");
    LookupIsFirstHit("", 0);
  }
}
