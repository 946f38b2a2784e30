/** Map hosting in server.js keeps no database: a map's id is the name of
    its stored file without the extension, and every request finds its
    file by listing the storage bucket and matching ids. File names follow
    Node's POSIX `path.extname` / `path.basename`. */
module MapFiles {
  import opened Optional
  import opened JsNumber

  /** A storage listing entry: the file name and the metadata fields the
      routes read (`originalName`, `fileSize` and `size`), None when absent. */
  datatype StoredFile = StoredFile(name: string, originalName: Option<string>, fileSize: Option<string>, size: Option<int>)

  /** One element of the `/api/maps` response; `fileSize` is None for NaN. */
  datatype MapInfo = MapInfo(id: string, originalName: string, storagePath: string, fileSize: Option<int>)

  /** `p` without its trailing slashes. */
  function TrimSlashes(p: string): (r: string)
    ensures |r| <= |p| && r == p[..|r|]
    ensures |r| > 0 ==> r[|r| - 1] != '/'
    ensures forall k :: |r| <= k < |p| ==> p[k] == '/'
    decreases |p|
  {
    if |p| > 0 && p[|p| - 1] == '/' then TrimSlashes(p[..|p| - 1]) else p
  }

  /** The position just after the last `/` of `p`, or 0 when there is none. */
  function SegmentStart(p: string): (k: nat)
    ensures k <= |p|
    ensures k > 0 ==> p[k - 1] == '/'
    ensures forall j :: k <= j < |p| ==> p[j] != '/'
    decreases |p|
  {
    if |p| == 0 || p[|p| - 1] == '/' then |p| else SegmentStart(p[..|p| - 1])
  }

  /** The last path component, as `path.basename` sees it. */
  function LastSegment(p: string): (r: string)
    ensures '/' !in r
  {
    var t := TrimSlashes(p);
    t[SegmentStart(t)..]
  }

  /** The position of the last `.` of `s`, if any. */
  function LastDot(s: string): (r: Option<nat>)
    ensures r.Some? ==> r.value < |s| && s[r.value] == '.'
    ensures r.Some? ==> forall j :: r.value < j < |s| ==> s[j] != '.'
    ensures r.None? ==> '.' !in s
    decreases |s|
  {
    if |s| == 0 then None
    else if s[|s| - 1] == '.' then Some(|s| - 1)
    else LastDot(s[..|s| - 1])
  }

  /** The extension of a single path component: from its last `.` to its
      end; empty when there is no dot, when the dot starts the component (a
      hidden file such as `.map`) or when the component is `..`. */
  function SegmentExt(s: string): (e: string)
    ensures |e| <= |s| && e == s[|s| - |e|..]
    ensures e == [] || (e[0] == '.' && '.' !in e[1..])
    ensures e == [] <==> s == ".." || forall k :: 1 <= k < |s| ==> s[k] != '.'
  {
    match LastDot(s)
    case None => []
    case Some(d) => if d == 0 || s == ".." then [] else s[d..]
  }

  /** `path.extname(p)`: the extension of the last component. */
  function ExtName(p: string): (e: string)
    ensures e == [] || (e[0] == '.' && '.' !in e[1..] && '/' !in e)
    ensures var s := LastSegment(p);
      && |e| <= |s| && e == s[|s| - |e|..]
      && (e == [] <==> s == ".." || forall k :: 1 <= k < |s| ==> s[k] != '.')
  {
    var s := LastSegment(p);
    var e := SegmentExt(s);
    assert '/' !in e by {
      forall k | 0 <= k < |e| ensures e[k] != '/' {
        assert e[k] == s[|s| - |e| + k];
      }
    }
    e
  }

  /** `path.basename(p, path.extname(p))`: the map id of a stored file. */
  function FileId(p: string): string {
    var s := LastSegment(p);
    s[..|s| - |SegmentExt(s)|]
  }

  /** ASCII lower-casing, the part of `toLowerCase` that can produce `.map`. */
  function ToLower(s: string): (r: string)
    ensures |r| == |s|
    ensures forall i :: 0 <= i < |s| ==> r[i] == LowerChar(s[i])
  {
    seq(|s|, i requires 0 <= i < |s| => LowerChar(s[i]))
  }

  function LowerChar(c: char): char {
    if 'A' <= c <= 'Z' then (c - 'A' + 'a') as char else c
  }

  /** The characters that lower-case to a given lower-case letter are that
      letter and its capital. */
  lemma LowerCharIs(c: char, lower: char)
    requires 'a' <= lower <= 'z'
    ensures LowerChar(c) == lower <==> c == lower || c == (lower - 'a' + 'A') as char
  {
  }

  /** The multer file filter: only names whose extension is `.map` in any
      letter case. */
  predicate AcceptsUpload(originalName: string) {
    ToLower(ExtName(originalName)) == ".map"
  }

  /** The name an upload is stored under: the fresh id and the original extension. */
  function StoredName(mapId: string, originalName: string): string {
    mapId + ExtName(originalName)
  }

  /** The storage path of an upload, inside the `maps/` folder. */
  function StoragePath(mapId: string, originalName: string): string {
    "maps/" + StoredName(mapId, originalName)
  }

  /** Whether a listed file is the map with the given id. */
  predicate HasId(f: StoredFile, id: string) {
    FileId(f.name) == id
  }

  /** `files.find(f => id(f.name) === id)`: the position of the first
      listed file with the requested id; None is a 404. The download and the
      delete routes share it. */
  function Find(files: seq<StoredFile>, id: string): (r: Option<nat>)
    ensures r.Some? ==> r.value < |files| && HasId(files[r.value], id)
    ensures r.Some? ==> forall j :: 0 <= j < r.value ==> !HasId(files[j], id)
    ensures r.None? <==> forall j :: 0 <= j < |files| ==> !HasId(files[j], id)
  {
    IndexOf(Ids(files), id, 0)
  }

  /** The id of every listed file, in listing order. */
  function Ids(files: seq<StoredFile>): (ids: seq<string>)
    ensures |ids| == |files|
    ensures forall i :: 0 <= i < |files| ==> ids[i] == FileId(files[i].name)
  {
    seq(|files|, i requires 0 <= i < |files| => FileId(files[i].name))
  }

  /** The first position at or after `k` that holds `x`. */
  function IndexOf(xs: seq<string>, x: string, k: nat): (r: Option<nat>)
    requires k <= |xs|
    ensures r.Some? ==> k <= r.value < |xs| && xs[r.value] == x
    ensures r.Some? ==> forall j :: k <= j < r.value ==> xs[j] != x
    ensures r.None? <==> forall j :: k <= j < |xs| ==> xs[j] != x
    decreases |xs| - k
  {
    if k == |xs| then None
    else if xs[k] == x then Some(k)
    else IndexOf(xs, x, k + 1)
  }

  /** `x || fallback` for a string. */
  function OrElse(x: Option<string>, fallback: string): string {
    if x.Some? && x.value != "" then x.value else fallback
  }

  /** The name offered for download: the uploader's file name when stored
      with the file, else the stored name. */
  function DownloadName(f: StoredFile): (r: string)
    ensures f.originalName.Some? && f.originalName.value != "" ==> r == f.originalName.value
    ensures !(f.originalName.Some? && f.originalName.value != "") ==> r == f.name
  {
    OrElse(f.originalName, f.name)
  }

  /** The size string `parseInt` reads: `fileSize`, else the numeric `size`
      written in decimal, else `'0'`. */
  function SizeText(f: StoredFile): string {
    if f.fileSize.Some? && f.fileSize.value != "" then f.fileSize.value
    else if f.size.Some? && f.size.value != 0 then IntToString(f.size.value, 10)
    else "0"
  }

  /** One entry of `GET /api/maps`. */
  function Describe(f: StoredFile): (m: MapInfo)
    ensures m.storagePath == f.name
    ensures m.id + ExtName(f.name) == LastSegment(f.name)
    ensures m.originalName == DownloadName(f)
    ensures f.fileSize.Some? && f.fileSize.value != "" ==> m.fileSize == ParseInt(f.fileSize.value, Auto)
    ensures !(f.fileSize.Some? && f.fileSize.value != "") && f.size.Some? ==> m.fileSize == Some(f.size.value)
    ensures !(f.fileSize.Some? && f.fileSize.value != "") && f.size.None? ==> m.fileSize == Some(0)
  {
    IdAndExtension(f.name);
    DecimalRoundTrip(f.size.ValueOr(0));
    assert IntToString(0, 10) == "0";
    MapInfo(FileId(f.name), DownloadName(f), f.name, ParseInt(SizeText(f), Auto))
  }

  /** `GET /api/maps`: every listed file, in listing order. */
  function Catalogue(files: seq<StoredFile>): (r: seq<MapInfo>)
    ensures |r| == |files|
    ensures forall i :: 0 <= i < |r| ==> r[i] == Describe(files[i])
  {
    seq(|files|, i requires 0 <= i < |files| => Describe(files[i]))
  }

  // ---------------------------------------------------------------------

  /** Every id the listing shows is one the download and delete routes find:
      the lookup stops at that entry or at an earlier file with the same id. */
  lemma ListedIdsAreFound(files: seq<StoredFile>)
    ensures forall i :: 0 <= i < |files| ==>
      var r := Find(files, Catalogue(files)[i].id);
      r.Some? && r.value <= i && Catalogue(files)[r.value].id == Catalogue(files)[i].id
  {
    var c := Catalogue(files);
    forall i | 0 <= i < |files|
      ensures var r := Find(files, c[i].id); r.Some? && r.value <= i && c[r.value].id == c[i].id
    {
      assert HasId(files[i], c[i].id);
    }
  }

  /** The id and the extension together make up the whole last component. */
  lemma IdAndExtension(p: string)
    ensures FileId(p) + ExtName(p) == LastSegment(p)
  {
    var s := LastSegment(p);
    var e := SegmentExt(s);
    assert s[..|s| - |e|] + s[|s| - |e|..] == s;
  }

  /** A name without a slash is its own last component. */
  lemma PlainName(p: string)
    requires '/' !in p
    ensures LastSegment(p) == p
  {
    if |p| > 0 {
      assert p[|p| - 1] != '/';
    }
    assert TrimSlashes(p) == p;
  }

  /** Every upload can be found again by the id it was given: for an id that
      is not empty and has no `.` or `/` (a UUID), the stored name and the
      storage path both have that id. */
  lemma StoredNameHasId(mapId: string, originalName: string)
    requires mapId != [] && '.' !in mapId && '/' !in mapId
    ensures FileId(StoredName(mapId, originalName)) == mapId
    ensures FileId(StoragePath(mapId, originalName)) == mapId
  {
    StoredId(mapId, originalName);
    PathSegment(mapId, originalName);
    SameSegment(StoragePath(mapId, originalName), StoredName(mapId, originalName));
  }

  /** The last component of an upload's storage path is its stored name. */
  lemma PathSegment(mapId: string, originalName: string)
    requires mapId != [] && '/' !in mapId
    ensures LastSegment(StoragePath(mapId, originalName)) == StoredName(mapId, originalName)
  {
    var n := StoredName(mapId, originalName);
    PlainNameOf(mapId, originalName);
    assert '/' !in n;
    assert StoragePath(mapId, originalName) == "maps" + "/" + n;
    SegmentOfJoin("maps", n);
  }

  lemma StoredId(mapId: string, originalName: string)
    requires mapId != [] && '.' !in mapId && '/' !in mapId
    ensures FileId(StoredName(mapId, originalName)) == mapId
  {
    var n := StoredName(mapId, originalName);
    PlainNameOf(mapId, originalName);
    StoredExtension(mapId, ExtName(originalName));
    assert n[..|n| - |ExtName(originalName)|] == mapId;
  }

  /** Paths with the same last component have the same id and extension. */
  lemma SameSegment(p: string, q: string)
    requires LastSegment(p) == LastSegment(q)
    ensures FileId(p) == FileId(q) && ExtName(p) == ExtName(q)
  {
  }

  /** A plain id followed by an extension has that extension. */
  lemma StoredExtension(mapId: string, e: string)
    requires mapId != [] && '.' !in mapId && '/' !in mapId
    requires e == [] || (e[0] == '.' && '.' !in e[1..] && '/' !in e)
    requires LastSegment(mapId + e) == mapId + e
    ensures ExtName(mapId + e) == e
  {
    var n := mapId + e;
    if e == [] {
      assert n == mapId;
    } else {
      LastDotAfter(mapId, e);
      assert n[|mapId|..] == e;
      assert n[0] == mapId[0] != '.';
    }
  }

  /** The last dot of `a + e` is the one `e` starts with when `a` has none
      and `e` has no other. */
  lemma LastDotAfter(a: string, e: string)
    requires '.' !in a
    requires |e| > 0 && e[0] == '.' && '.' !in e[1..]
    ensures LastDot(a + e) == Some(|a|)
  {
    assert (a + e)[|a|] == '.';
  }

  /** The last component of `dir/name` is `name` when `name` is a plain,
      non-empty name. */
  lemma SegmentOfJoin(dir: string, name: string)
    requires |name| > 0 && '/' !in name
    ensures LastSegment(dir + "/" + name) == name
  {
    var p := dir + "/" + name;
    assert p[|p| - 1] == name[|name| - 1];
    assert TrimSlashes(p) == p;
    var k := SegmentStart(p);
    assert p[|dir|] == '/';
    if k <= |dir| {
      assert false;
    } else if k > |dir| + 1 {
      assert false;
    }
    assert p[|dir| + 1..] == name;
  }

  /** Once stored, an upload is what the download and delete routes find for
      its id, unless an earlier listed file has the same id. */
  lemma UploadIsFound(files: seq<StoredFile>, i: nat, mapId: string, originalName: string)
    requires mapId != [] && '.' !in mapId && '/' !in mapId
    requires i < |files| && files[i].name == StoredName(mapId, originalName)
    ensures Find(files, mapId).Some?
    ensures Find(files, mapId).value <= i
  {
    StoredNameHasId(mapId, originalName);
  }

  /** The filter accepts exactly the eight letter cases of `.map`, after a
      name that does not start with the dot. */
  lemma AcceptedExtensions(originalName: string)
    ensures AcceptsUpload(originalName) <==>
      var e := ExtName(originalName);
      && |e| == 4 && e[0] == '.'
      && (e[1] == 'm' || e[1] == 'M') && (e[2] == 'a' || e[2] == 'A') && (e[3] == 'p' || e[3] == 'P')
  {
    LowersToDotMap(ExtName(originalName));
  }

  /** The strings that lower-case to `.map`: a dot, then `m`, `a` and `p` in
      either case. */
  lemma LowersToDotMap(e: string)
    ensures ToLower(e) == ".map" <==>
      && |e| == 4 && e[0] == '.'
      && (e[1] == 'm' || e[1] == 'M') && (e[2] == 'a' || e[2] == 'A') && (e[3] == 'p' || e[3] == 'P')
  {
    if |e| == 4 {
      DotMap(ToLower(e));
      assert LowerChar(e[0]) == '.' <==> e[0] == '.';
      LowerCharIs(e[1], 'm');
      LowerCharIs(e[2], 'a');
      LowerCharIs(e[3], 'p');
    } else {
      assert |ToLower(e)| != |".map"|;
    }
  }

  lemma DotMap(l: string)
    requires |l| == 4
    ensures l == ".map" <==> l[0] == '.' && l[1] == 'm' && l[2] == 'a' && l[3] == 'p'
  {
    if l[0] == '.' && l[1] == 'm' && l[2] == 'a' && l[3] == 'p' {
      assert l == ['.', 'm', 'a', 'p'];
    }
  }

  /** A map uploaded under any accepted name is stored with a `.map`-style
      extension, which is what the listing strips again. */
  lemma UploadKeepsExtension(mapId: string, originalName: string)
    requires mapId != [] && '.' !in mapId && '/' !in mapId
    requires AcceptsUpload(originalName)
    ensures ExtName(StoredName(mapId, originalName)) == ExtName(originalName)
    ensures AcceptsUpload(StoredName(mapId, originalName))
  {
    StoredNameHasId(mapId, originalName);
    IdAndExtension(StoredName(mapId, originalName));
    PlainNameOf(mapId, originalName);
  }

  lemma PlainNameOf(mapId: string, originalName: string)
    requires '/' !in mapId
    ensures LastSegment(StoredName(mapId, originalName)) == StoredName(mapId, originalName)
  {
    var e := ExtName(originalName);
    var n := mapId + e;
    assert '/' !in n by {
      forall k | 0 <= k < |n| ensures n[k] != '/' {
        if k >= |mapId| { assert n[k] == e[k - |mapId|]; }
      }
    }
    PlainName(n);
  }

  /** The size shown for a file with only a numeric `size` is that size. */
  lemma SizeFromNumber(f: StoredFile)
    requires f.fileSize.None? && f.size.Some?
    ensures Describe(f).fileSize == Some(f.size.value)
  {
    if f.size.value != 0 {
      DecimalRoundTrip(f.size.value);
    } else {
      DecimalRoundTrip(0);
      assert IntToString(0, 10) == "0";
    }
  }
}
