/** Rewriting Google Drive share links to direct-view image links.

    The converter nested inside the property formatter knows only the
    `/d/<id>` form; the shadowed top-level converter tries `/file/d/<id>`,
    then `?id=<id>` or `&id=<id>`, then `/folders/<id>`. In both, an id is a
    maximal non-empty run of `[A-Za-z0-9_-]`, and a URL that does not mention
    `drive.google.com`, or holds no id, is returned unchanged. */
module Drive {
  import opened Text

  const Host: string := "drive.google.com"
  const ViewPrefix: string := "https://" + Host + "/uc?export=view&id="

  /** The regex class `[a-zA-Z0-9_-]`. */
  predicate IsIdChar(c: char) {
    ('a' <= c <= 'z') || ('A' <= c <= 'Z') || ('0' <= c <= '9') || c == '_' || c == '-'
  }

  predicate AllId(s: string) {
    forall i :: 0 <= i < |s| ==> IsIdChar(s[i])
  }

  /** The direct-view URL for a file id. */
  function DirectView(id: string): string {
    ViewPrefix + id
  }

  /** The greedy `[a-zA-Z0-9_-]+` run at the start of `s`: the longest prefix
      of id characters. */
  function IdRun(s: string): (r: string)
    ensures |r| <= |s| && r == s[..|r|]
    ensures AllId(r)
    ensures |r| == |s| || !IsIdChar(s[|r|])
  {
    if |s| > 0 && IsIdChar(s[0]) then [s[0]] + IdRun(s[1..]) else ""
  }

  /** One of `markers` (all of length `m`) starts at `j` and an id character follows it. */
  predicate HitAt(s: string, markers: seq<string>, m: nat, j: int) {
    0 <= j && j + m < |s| && s[j..j + m] in markers && IsIdChar(s[j + m])
  }

  /** The leftmost position, from `k` on, where the pattern `marker([a-zA-Z0-9_-]+)`
      matches: where a marker is directly followed by at least one id character. */
  function FirstHitFrom(s: string, markers: seq<string>, m: nat, k: nat): (r: Option<nat>)
    ensures r.Some? ==> k <= r.value && HitAt(s, markers, m, r.value)
    ensures r.Some? ==> forall j :: k <= j < r.value ==> !HitAt(s, markers, m, j)
    ensures r.None? ==> forall j :: k <= j ==> !HitAt(s, markers, m, j)
    decreases |s| - k
  {
    if k + m >= |s| then None
    else if HitAt(s, markers, m, k) then Some(k)
    else FirstHitFrom(s, markers, m, k + 1)
  }

  /** The id captured by the first match of `marker([a-zA-Z0-9_-]+)`, if any. */
  function Capture(s: string, markers: seq<string>, m: nat): (r: Option<string>)
    ensures r.Some? ==> r.value != [] && AllId(r.value)
    ensures r.None? <==> forall j :: !HitAt(s, markers, m, j)
  {
    match FirstHitFrom(s, markers, m, 0)
    case None => None
    case Some(j) =>
      var id := IdRun(s[j + m..]);
      assert id != [];
      Some(id)
  }

  /** The capture is the greedy id run right after the leftmost hit. */
  lemma CaptureFirst(s: string, markers: seq<string>, m: nat, j: nat)
    requires HitAt(s, markers, m, j)
    requires forall j' :: 0 <= j' < j ==> !HitAt(s, markers, m, j')
    ensures Capture(s, markers, m) == Some(IdRun(s[j + m..]))
  {
    var h := FirstHitFrom(s, markers, m, 0);
    assert h.Some? && h.value == j;
  }

  /** The formatter's own converter: only `/d/<id>` is recognised. */
  function ConvertInner(url: string): (r: string)
    ensures !Contains(url, Host) ==> r == url
    ensures Contains(url, Host) && Capture(url, ["/d/"], 3).Some? ==>
      r == DirectView(Capture(url, ["/d/"], 3).value)
    ensures Capture(url, ["/d/"], 3).None? ==> r == url
    ensures r == url || exists id :: id != [] && AllId(id) && r == DirectView(id)
  {
    if Contains(url, Host) then
      match Capture(url, ["/d/"], 3)
      case Some(id) => DirectView(id)
      case None => url
    else url
  }

  /** The shadowed top-level converter: three id forms, tried in order, the
      first that matches anywhere in the URL wins. */
  function ConvertDrive(url: string): (r: string)
    ensures !Contains(url, Host) ==> r == url
    ensures Contains(url, Host) && Capture(url, ["/file/d/"], 8).Some? ==>
      r == DirectView(Capture(url, ["/file/d/"], 8).value)
    ensures Contains(url, Host) && Capture(url, ["/file/d/"], 8).None? && Capture(url, ["?id=", "&id="], 4).Some? ==>
      r == DirectView(Capture(url, ["?id=", "&id="], 4).value)
    ensures Contains(url, Host) && Capture(url, ["/file/d/"], 8).None? && Capture(url, ["?id=", "&id="], 4).None?
            && Capture(url, ["/folders/"], 9).Some? ==>
      r == DirectView(Capture(url, ["/folders/"], 9).value)
    ensures (Capture(url, ["/file/d/"], 8).None? && Capture(url, ["?id=", "&id="], 4).None?
             && Capture(url, ["/folders/"], 9).None?) ==> r == url
    ensures r == url || exists id :: id != [] && AllId(id) && r == DirectView(id)
  {
    if Contains(url, Host) then
      match Capture(url, ["/file/d/"], 8)
      case Some(id) => DirectView(id)
      case None =>
        match Capture(url, ["?id=", "&id="], 4)
        case Some(id) => DirectView(id)
        case None =>
          match Capture(url, ["/folders/"], 9)
          case Some(id) => DirectView(id)
          case None => url
    else url
  }

  /** Where the separators sit in the direct-view prefix. */
  lemma PrefixSlash(j: int)
    requires 0 <= j < |ViewPrefix| && ViewPrefix[j] == '/'
    ensures j == 6 || j == 7 || j == 24
  {
  }

  lemma PrefixQuery(j: int)
    requires 0 <= j < |ViewPrefix| && (ViewPrefix[j] == '?' || ViewPrefix[j] == '&')
    ensures j == 27 || j == 39
  {
  }

  /** Where the separators sit in a direct-view URL: the id contributes none. */
  lemma DirectViewShape(id: string)
    requires AllId(id)
    ensures |DirectView(id)| == 43 + |id|
    ensures forall j :: 0 <= j < |DirectView(id)| && DirectView(id)[j] == '/' ==> j == 6 || j == 7 || j == 24
    ensures forall j :: 0 <= j < |DirectView(id)| && DirectView(id)[j] in "?&" ==> j == 27 || j == 39
  {
    var s := DirectView(id);
    forall j | 0 <= j < |s| && s[j] == '/'
      ensures j == 6 || j == 7 || j == 24
    {
      if j < 43 {
        PrefixSlash(j);
      }
    }
    forall j | 0 <= j < |s| && s[j] in "?&"
      ensures j == 27 || j == 39
    {
      if j < 43 {
        PrefixQuery(j);
      }
    }
  }

  /** A direct-view URL names the Drive host. */
  lemma DirectViewHost(id: string)
    ensures Contains(DirectView(id), Host)
  {
    var s := DirectView(id);
    assert s[8..24] == ViewPrefix[8..24] == Host;
    assert OccursAt(s, Host, 8);
  }

  /** The id of a direct-view URL sits at its end, behind `&id=`. */
  lemma DirectViewCapture(id: string)
    requires id != [] && AllId(id)
    ensures Capture(DirectView(id), ["?id=", "&id="], 4) == Some(id)
  {
    var s := DirectView(id);
    DirectViewShape(id);
    assert s[39..43] == ViewPrefix[39..43] == "&id=";
    assert HitAt(s, ["?id=", "&id="], 4, 39);
    forall j | 0 <= j < 39
      ensures !HitAt(s, ["?id=", "&id="], 4, j)
    {
      assert s[j..j + 4][0] == s[j];
      if j == 27 {
        assert s[j..j + 4][1] == s[28] == ViewPrefix[28] == 'e';
      }
    }
    var k := FirstHitFrom(s, ["?id=", "&id="], 4, 0);
    assert k == Some(39);
    assert s[43..] == id;
    IdRunAll(id);
  }

  lemma {:induction false} IdRunAll(id: string)
    requires AllId(id)
    ensures IdRun(id) == id
  {
    if |id| > 0 {
      IdRunAll(id[1..]);
      assert [id[0]] + id[1..] == id;
    }
  }

  /** No marker ending in `/` followed by an id character occurs in a
      direct-view URL: its only slashes are in `https://` and before `uc`. */
  lemma DirectViewNoSlashHit(id: string, marker: string)
    requires AllId(id)
    requires marker == "/d/" || marker == "/file/d/" || marker == "/folders/"
    ensures forall j :: !HitAt(DirectView(id), [marker], |marker|, j)
  {
    var s := DirectView(id);
    var m := |marker|;
    DirectViewShape(id);
    forall j
      ensures !HitAt(s, [marker], m, j)
    {
      if 0 <= j && j + m < |s| {
        NoSlashHitAt(s, marker, j);
      }
    }
  }

  /** A marker that starts and ends with `/` cannot sit where the slashes
      of a direct-view URL are. */
  lemma NoSlashHitAt(s: string, marker: string, j: nat)
    requires marker == "/d/" || marker == "/file/d/" || marker == "/folders/"
    requires j + |marker| < |s|
    requires forall i :: 0 <= i < |s| && s[i] == '/' ==> i == 6 || i == 7 || i == 24
    ensures s[j..j + |marker|] != marker
  {
    var m := |marker|;
    assert s[j..j + m][0] == s[j];
    assert s[j..j + m][m - 1] == s[j + m - 1];
  }

  /** The formatter's converter leaves its own output alone. */
  lemma ConvertInnerIdempotent(url: string)
    ensures ConvertInner(ConvertInner(url)) == ConvertInner(url)
  {
    var r := ConvertInner(url);
    if r != url {
      var id :| id != [] && AllId(id) && r == DirectView(id);
      DirectViewNoSlashHit(id, "/d/");
    }
  }

  /** The top-level converter leaves its own output alone: a direct-view URL
      is recognised by its `&id=` form and rebuilt identically. */
  lemma ConvertDriveIdempotent(url: string)
    ensures ConvertDrive(ConvertDrive(url)) == ConvertDrive(url)
  {
    var r := ConvertDrive(url);
    if r != url {
      var id :| id != [] && AllId(id) && r == DirectView(id);
      DirectViewHost(id);
      DirectViewNoSlashHit(id, "/file/d/");
      DirectViewCapture(id);
    }
  }

  const SharePrefix: string := "https://" + Host + "/file/d/"

  /** The scheme and host of a share link hold no `f`. */
  lemma ShareHead(k: int)
    requires 0 <= k < 25
    ensures SharePrefix[k] != 'f'
  {
  }

  /** A `/file/d/<id>/...` share link on the Drive host becomes the
      direct-view URL of that id, whatever follows the id's closing slash. */
  lemma FileShareLink(id: string, rest: string)
    requires id != [] && AllId(id)
    ensures ConvertDrive(SharePrefix + id + "/" + rest) == DirectView(id)
  {
    ShareHost(SharePrefix + id + "/" + rest);
    ShareCapture(id, rest);
  }

  /** A URL that starts with the share prefix mentions the Drive host. */
  lemma ShareHost(s: string)
    requires StartsWith(s, SharePrefix)
    ensures Contains(s, Host)
  {
    var head := s[..|SharePrefix|];
    assert head == SharePrefix;
    assert s[8..24] == head[8..24];
    assert head[8..24] == Host;
    assert OccursAt(s, Host, 8);
  }

  /** The `/file/d/` capture of a share link is its id. */
  lemma ShareCapture(id: string, rest: string)
    requires id != [] && AllId(id)
    ensures Capture(SharePrefix + id + "/" + rest, ["/file/d/"], 8) == Some(id)
  {
    var s := SharePrefix + id + "/" + rest;
    ShareFirstHit(s);
    CaptureFirst(s, ["/file/d/"], 8, 24);
    assert s[32..] == id + ("/" + rest);
    IdRunStops(id, "/" + rest);
  }

  /** In a share link followed by an id character, the leftmost `/file/d/`
      hit is the one the prefix ends with. */
  lemma ShareFirstHit(s: string)
    requires StartsWith(s, SharePrefix) && |s| > 32 && IsIdChar(s[32])
    ensures HitAt(s, ["/file/d/"], 8, 24)
    ensures forall j :: 0 <= j < 24 ==> !HitAt(s, ["/file/d/"], 8, j)
  {
    assert s[24..32] == SharePrefix[24..32] == "/file/d/";
    forall j | 0 <= j < 24
      ensures !HitAt(s, ["/file/d/"], 8, j)
    {
      assert s[j..j + 8][1] == s[j + 1] == SharePrefix[j + 1];
      ShareHead(j + 1);
    }
  }

  lemma {:induction false} IdRunStops(id: string, rest: string)
    requires AllId(id) && rest != [] && !IsIdChar(rest[0])
    ensures IdRun(id + rest) == id
  {
    if |id| > 0 {
      assert (id + rest)[1..] == id[1..] + rest;
      IdRunStops(id[1..], rest);
      assert [id[0]] + id[1..] == id;
    } else {
      assert id + rest == rest;
    }
  }
}
