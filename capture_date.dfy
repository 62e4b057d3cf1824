/**
  Capture dates of photos (src/CaptureDate.py): the date a picture or an XMP
  sidecar records, the set of dates under a path, and their least and greatest.

  The file system is a tree of `Node`s: a path is a file, a directory with its
  entries in `os.scandir` order, or neither. Timestamps are integers ordered as
  the datetimes they stand for. The library calls are the fields of `Readers`:
  `piexif.load` and `ET.parse` give None when they raise, which the source
  catches; the date parsers (`bytes.decode` with `strptime`, `strptime` with a
  fraction, `fromisoformat`) give None when they raise, which the source does
  not catch, so the whole call fails with `UnreadableDate`.
*/
module CaptureDate {
  import opened Wrappers
  import opened ElementTree

  type Bytes = seq<bv8>

  datatype Node =
    | File(path: string)
    | Dir(entries: seq<Node>)
    | Missing

  /** The exception a date parser raises on a file, which nothing catches. */
  datatype Error = UnreadableDate(path: string)

  datatype Readers = Readers(
    loadExif: string -> Option<map<string, map<int, Bytes>>>,
    exifDateTime: Bytes -> Option<int>,
    parseXml: string -> Option<Element>,
    fractionalDateTime: string -> Option<int>,
    isoDateTime: string -> Option<int>)

  /** EXIF tag DateTimeOriginal. */
  const DateTimeOriginalTag: int := 36867

  const RdfTag: string := "{http://www.w3.org/1999/02/22-rdf-syntax-ns#}RDF"
  const DescriptionTag: string := "{http://www.w3.org/1999/02/22-rdf-syntax-ns#}Description"
  const DateTimeOriginalAttribute: string := "{http://ns.adobe.com/exif/1.0/}DateTimeOriginal"

  // GetFromPictureFile (src/CaptureDate.py:9-22).

  /** The capture date a picture's EXIF block records, if it has one. */
  function GetFromPictureFile(rd: Readers, path: string): (r: Result<Option<int>, Error>)
    ensures rd.loadExif(path).None? ==> r == Success(None)
    ensures rd.loadExif(path).Some? && "Exif" !in rd.loadExif(path).value ==> r == Success(None)
    ensures (rd.loadExif(path).Some? && "Exif" in rd.loadExif(path).value
      && DateTimeOriginalTag !in rd.loadExif(path).value["Exif"]) ==> r == Success(None)
    ensures r.Failure? ==> r.error == UnreadableDate(path)
  {
    match rd.loadExif(path)
    case None => Success(None)
    case Some(exif) =>
      if "Exif" !in exif || DateTimeOriginalTag !in exif["Exif"] then Success(None)
      else
        match rd.exifDateTime(exif["Exif"][DateTimeOriginalTag])
        case None => Failure(UnreadableDate(path))
        case Some(t) => Success(Some(t))
  }

  // GetFromXmpFile (src/CaptureDate.py:25-50).

  /** `find('rdf:RDF/rdf:Description')`: the first Description child of an RDF child, in document order. */
  function FindDescription(cs: seq<Element>): (r: Option<Element>)
    ensures r.Some? ==> r.value.tag == DescriptionTag
    ensures r.None? <==> forall k :: 0 <= k < |cs| && cs[k].tag == RdfTag ==> FindFirst(cs[k].children, DescriptionTag).None?
  {
    if cs == [] then None
    else if cs[0].tag == RdfTag && FindFirst(cs[0].children, DescriptionTag).Some? then
      Some(cs[0].children[FindFirst(cs[0].children, DescriptionTag).value])
    else
      FindDescription(cs[1..])
  }

  /** No RDF child before position `i` has a Description child. */
  predicate NoDescriptionBefore(cs: seq<Element>, i: nat) {
    forall k :: 0 <= k < i && k < |cs| && cs[k].tag == RdfTag ==> FindFirst(cs[k].children, DescriptionTag).None?
  }

  lemma NoDescriptionBeforeCons(cs: seq<Element>, i: nat)
    requires cs != [] && NoDescriptionBefore(cs[1..], i)
    requires cs[0].tag == RdfTag ==> FindFirst(cs[0].children, DescriptionTag).None?
    ensures NoDescriptionBefore(cs, i + 1)
  {
    forall k | 0 < k < i + 1 && k < |cs| ensures cs[k] == cs[1..][k - 1] {
    }
  }

  lemma TailIndex<T>(s: seq<T>, i: nat)
    requires i < |s| - 1
    ensures s[i + 1] == s[1..][i]
  { }

  /**
    Where the Description comes from: the first Description child of the first
    RDF child that has one, in document order.
  */
  lemma {:induction false} FindDescriptionAt(cs: seq<Element>) returns (i: nat, j: nat)
    requires FindDescription(cs).Some?
    ensures i < |cs| && cs[i].tag == RdfTag
    ensures FindFirst(cs[i].children, DescriptionTag) == Some(j)
    ensures FindDescription(cs).value == cs[i].children[j]
    ensures NoDescriptionBefore(cs, i)
  {
    if cs[0].tag == RdfTag && FindFirst(cs[0].children, DescriptionTag).Some? {
      i, j := 0, FindFirst(cs[0].children, DescriptionTag).value;
    } else {
      var i', j' := FindDescriptionAt(cs[1..]);
      NoDescriptionBeforeCons(cs, i');
      TailIndex(cs, i');
      i, j := i' + 1, j';
    }
  }

  predicate IsDigit(c: char) {
    '0' <= c <= '9'
  }

  /** End of the run of digits that starts at `i`. */
  function DigitsEnd(s: string, i: nat): (n: nat)
    requires i <= |s|
    ensures i <= n <= |s|
    ensures forall k :: i <= k < n ==> IsDigit(s[k])
    ensures n < |s| ==> !IsDigit(s[n])
    decreases |s| - i
  {
    if i == |s| || !IsDigit(s[i]) then i else DigitsEnd(s, i + 1)
  }

  /**
    `re.match` of digit runs separated by the characters of `seps`, from `i`:
    one or more digits, then each separator followed by one or more digits.
    Nothing is required after the last run.
  */
  function FieldsFrom(s: string, i: nat, seps: string): bool
    requires i <= |s|
    decreases |seps|
  {
    var d := DigitsEnd(s, i);
    && d > i
    && (seps == [] || (d < |s| && s[d] == seps[0] && FieldsFrom(s, d + 1, seps[1..])))
  }

  /** The separators of `\d+-\d+-\d+T\d+:\d+:\d+\.\d+`. */
  const FractionalSeparators: string := "--T::."

  /** `re.match('\d+-\d+-\d+T\d+:\d+:\d+\.\d+', s)` succeeds. */
  predicate HasFraction(s: string) {
    FieldsFrom(s, 0, FractionalSeparators)
  }

  /** A non-empty run of digits. */
  predicate IsNumber(x: string) {
    |x| > 0 && forall k :: 0 <= k < |x| ==> IsDigit(x[k])
  }

  /** The fields joined by the separators: `fields[0] + seps[0] + fields[1] + ...`. */
  function Join(fields: seq<string>, seps: string): string
    requires |fields| == |seps| + 1
    decreases |seps|
  {
    if seps == [] then fields[0] else fields[0] + [seps[0]] + Join(fields[1..], seps[1..])
  }

  /** `t` occurs in `s` at position `i`. */
  predicate OccursAt(t: string, s: string, i: nat) {
    i + |t| <= |s| && s[i..i + |t|] == t
  }

  /** The digit runs `FieldsFrom` reads. */
  function FieldsOf(s: string, i: nat, seps: string): (fields: seq<string>)
    requires i <= |s| && FieldsFrom(s, i, seps)
    ensures |fields| == |seps| + 1
    decreases |seps|
  {
    var d := DigitsEnd(s, i);
    [s[i..d]] + if seps == [] then [] else FieldsOf(s, d + 1, seps[1..])
  }

  /** Where `x + [c] + y` occurs, `x`, `c` and `y` occur one after the other. */
  lemma OccursSplit(x: string, c: char, y: string, s: string, i: nat)
    requires OccursAt(x + [c] + y, s, i)
    ensures OccursAt(x, s, i)
    ensures i + |x| < |s| && s[i + |x|] == c
    ensures OccursAt(y, s, i + |x| + 1)
  {
    var t := x + [c] + y;
    assert s[i..i + |x|] == t[..|x|];
    assert s[i + |x|] == t[|x|];
    assert s[i + |x| + 1..i + |t|] == t[|x| + 1..];
  }

  lemma JoinStep(fields: seq<string>, seps: string, s: string, i: nat)
    requires |fields| == |seps| + 1 && seps != []
    requires OccursAt(Join(fields, seps), s, i)
    ensures OccursAt(fields[0], s, i)
    ensures i + |fields[0]| < |s| && s[i + |fields[0]|] == seps[0]
    ensures OccursAt(Join(fields[1..], seps[1..]), s, i + |fields[0]| + 1)
  {
    OccursSplit(fields[0], seps[0], Join(fields[1..], seps[1..]), s, i);
  }

  /** A run of digits ending at a non-digit (or at the end) is exactly what `DigitsEnd` reads. */
  lemma DigitsEndOf(s: string, i: nat, x: string)
    requires OccursAt(x, s, i) && IsNumber(x)
    requires i + |x| < |s| ==> !IsDigit(s[i + |x|])
    ensures DigitsEnd(s, i) == i + |x|
  {
    var n := DigitsEnd(s, i);
    forall k | i <= k < i + |x| ensures IsDigit(s[k]) {
      assert s[k] == s[i..i + |x|][k - i];
    }
  }

  /**
    The recognizer matches exactly the texts that start with digit runs joined
    by the separators, when no separator is itself a digit.
  */
  lemma {:induction false} FieldsFromComplete(s: string, i: nat, seps: string, fields: seq<string>)
    requires i <= |s| && |fields| == |seps| + 1
    requires forall k :: 0 <= k < |seps| ==> !IsDigit(seps[k])
    requires forall j :: 0 <= j < |fields| ==> IsNumber(fields[j])
    requires OccursAt(Join(fields, seps), s, i)
    ensures FieldsFrom(s, i, seps)
    decreases |seps|
  {
    if seps == [] {
      assert forall k | i <= k < i + |fields[0]| :: s[k] == fields[0][k - i];
      assert IsDigit(s[i]);
    } else {
      JoinStep(fields, seps, s, i);
      DigitsEndOf(s, i, fields[0]);
      assert forall j :: 0 <= j < |fields[1..]| ==> fields[1..][j] == fields[j + 1];
      FieldsFromComplete(s, i + |fields[0]| + 1, seps[1..], fields[1..]);
    }
  }

  lemma OccursAfter(s: string, i: nat, d: nat, c: char, t: string)
    requires i <= d < |s| && s[d] == c && OccursAt(t, s, d + 1)
    ensures OccursAt(s[i..d] + [c] + t, s, i)
  {
    assert s[i..d + 1 + |t|] == s[i..d] + [s[d]] + s[d + 1..d + 1 + |t|];
  }

  lemma RunIsNumber(s: string, i: nat)
    requires i <= |s| && i < DigitsEnd(s, i)
    ensures IsNumber(s[i..DigitsEnd(s, i)])
  {
    var d := DigitsEnd(s, i);
    forall k | 0 <= k < d - i ensures IsDigit(s[i..d][k]) {
      assert s[i..d][k] == s[i + k];
    }
  }

  /** One more digit run and separator in front of joined fields that occur after it. */
  lemma SoundStep(s: string, i: nat, d: nat, c: char, rest: seq<string>, seps: string)
    requires i < d < |s| && s[d] == c && IsNumber(s[i..d])
    requires |rest| == |seps| + 1
    requires forall j :: 0 <= j < |rest| ==> IsNumber(rest[j])
    requires OccursAt(Join(rest, seps), s, d + 1)
    ensures forall j :: 0 <= j < |[s[i..d]] + rest| ==> IsNumber(([s[i..d]] + rest)[j])
    ensures OccursAt(Join([s[i..d]] + rest, [c] + seps), s, i)
  {
    var fields := [s[i..d]] + rest;
    assert fields[1..] == rest;
    assert ([c] + seps)[1..] == seps;
    OccursAfter(s, i, d, c, Join(rest, seps));
  }

  lemma {:induction false} FieldsFromSound(s: string, i: nat, seps: string)
    requires i <= |s| && FieldsFrom(s, i, seps)
    ensures forall j :: 0 <= j < |FieldsOf(s, i, seps)| ==> IsNumber(FieldsOf(s, i, seps)[j])
    ensures OccursAt(Join(FieldsOf(s, i, seps), seps), s, i)
    decreases |seps|
  {
    var d := DigitsEnd(s, i);
    RunIsNumber(s, i);
    if seps == [] {
      assert FieldsOf(s, i, seps) == [s[i..d]];
      assert s[i..i + |s[i..d]|] == s[i..d];
    } else {
      FieldsFromSound(s, d + 1, seps[1..]);
      SoundStep(s, i, d, seps[0], FieldsOf(s, d + 1, seps[1..]), seps[1..]);
      assert seps == [seps[0]] + seps[1..];
    }
  }

  /** With separators that are not digits, the recognizer accepts exactly the joined digit runs. */
  lemma FieldsFromExactly(s: string, seps: string)
    requires forall k :: 0 <= k < |seps| ==> !IsDigit(seps[k])
    ensures FieldsFrom(s, 0, seps) <==> exists fields: seq<string> ::
      && |fields| == |seps| + 1
      && (forall j :: 0 <= j < |fields| ==> IsNumber(fields[j]))
      && OccursAt(Join(fields, seps), s, 0)
  {
    if FieldsFrom(s, 0, seps) {
      FieldsFromSound(s, 0, seps);
      var fields := FieldsOf(s, 0, seps);
      assert |fields| == |seps| + 1;
    }
    forall fields: seq<string> |
      && |fields| == |seps| + 1
      && (forall j :: 0 <= j < |fields| ==> IsNumber(fields[j]))
      && OccursAt(Join(fields, seps), s, 0)
      ensures FieldsFrom(s, 0, seps)
    {
      FieldsFromComplete(s, 0, seps, fields);
    }
  }

  /**
    The fraction test accepts exactly the texts that begin with seven digit
    runs joined by `-`, `-`, `T`, `:`, `:`, `.`; anything may follow.
  */
  lemma HasFractionExactly(s: string)
    ensures HasFraction(s) <==> exists fields: seq<string> ::
      && |fields| == |FractionalSeparators| + 1
      && (forall j :: 0 <= j < |fields| ==> IsNumber(fields[j]))
      && OccursAt(Join(fields, FractionalSeparators), s, 0)
  {
    assert forall k :: 0 <= k < |FractionalSeparators| ==> !IsDigit(FractionalSeparators[k]);
    FieldsFromExactly(s, FractionalSeparators);
  }

  /** The DateTimeOriginal text of the file's Description, when the file parses and has one. */
  function DateTimeText(rd: Readers, path: string): Option<string> {
    match rd.parseXml(path)
    case None => None
    case Some(root) =>
      match FindDescription(root.children)
      case None => None
      case Some(description) =>
        if DateTimeOriginalAttribute in description.attrib
        then Some(description.attrib[DateTimeOriginalAttribute])
        else None
  }

  /**
    The capture date an XMP sidecar's Description records, if it has one. A
    text that passes the fraction test goes to the fractional parser, any
    other to the ISO parser; a text the chosen parser rejects raises.
  */
  function GetFromXmpFile(rd: Readers, path: string): (r: Result<Option<int>, Error>)
    ensures rd.parseXml(path).None? ==> r == Success(None)
    ensures rd.parseXml(path).Some? && FindDescription(rd.parseXml(path).value.children).None? ==> r == Success(None)
    ensures (rd.parseXml(path).Some? && FindDescription(rd.parseXml(path).value.children).Some?
      && DateTimeOriginalAttribute !in FindDescription(rd.parseXml(path).value.children).value.attrib)
      ==> r == Success(None)
    ensures DateTimeText(rd, path).None? ==> r == Success(None)
    ensures DateTimeText(rd, path).Some? && HasFraction(DateTimeText(rd, path).value) ==>
      && (r.Success? <==> rd.fractionalDateTime(DateTimeText(rd, path).value).Some?)
      && (r.Success? ==> r.value == rd.fractionalDateTime(DateTimeText(rd, path).value))
    ensures DateTimeText(rd, path).Some? && !HasFraction(DateTimeText(rd, path).value) ==>
      && (r.Success? <==> rd.isoDateTime(DateTimeText(rd, path).value).Some?)
      && (r.Success? ==> r.value == rd.isoDateTime(DateTimeText(rd, path).value))
    ensures r.Failure? ==> r.error == UnreadableDate(path)
  {
    match DateTimeText(rd, path)
    case None => Success(None)
    case Some(text) =>
      var parsed := if HasFraction(text) then rd.fractionalDateTime(text) else rd.isoDateTime(text);
      match parsed
      case None => Failure(UnreadableDate(path))
      case Some(t) => Success(Some(t))
  }

  // GetFromFile (src/CaptureDate.py:53-76).

  /** Index of the last occurrence of `c` in `s`. */
  function LastIndexOf(s: string, c: char): (r: Option<nat>)
    ensures r.Some? ==> r.value < |s| && s[r.value] == c
    ensures r.Some? ==> forall k :: r.value < k < |s| ==> s[k] != c
    ensures r.None? ==> forall k :: 0 <= k < |s| ==> s[k] != c
  {
    if s == [] then None
    else if s[|s| - 1] == c then Some(|s| - 1)
    else LastIndexOf(s[..|s| - 1], c)
  }

  /**
    `os.path.splitext(path)[1]` for POSIX paths: from the last dot of the last
    path component on, unless that dot only belongs to the component's
    leading dots; "" otherwise.
  */
  function Extension(path: string): (ext: string)
    ensures |ext| <= |path|
    ensures ext == [] || (ext[0] == '.' && ext == path[|path| - |ext|..])
    ensures forall k :: 0 < k < |ext| ==> ext[k] != '.' && ext[k] != '/'
  {
    match LastIndexOf(path, '.')
    case None => []
    case Some(dot) =>
      var start := match LastIndexOf(path, '/') case None => 0 case Some(sep) => sep + 1;
      if start <= dot && exists k :: start <= k < dot && path[k] != '.' then
        assert forall k :: dot < k < |path| ==> path[k] != '/';
        path[dot..]
      else []
  }

  /** `str.lower` on ASCII letters. */
  function Lower(s: string): string {
    seq(|s|, k requires 0 <= k < |s| => if 'A' <= s[k] <= 'Z' then (s[k] - 'A' + 'a') as char else s[k])
  }

  const PictureExtensions: seq<string> := [".cr2", ".dng", ".jpg", ".nef", ".tif"]
  const SidecarExtensions: seq<string> := [".xmp"]

  /** Which reader the lower-cased extension of a file selects. */
  datatype Kind = Picture | Sidecar | Other

  function KindOf(path: string): (k: Kind)
    ensures k != Other ==> Extension(path) != []
  {
    var ext := Lower(Extension(path));
    if ext in PictureExtensions then Picture
    else if ext in SidecarExtensions then Sidecar
    else Other
  }

  /** The capture date of one file, by the reader its extension selects. */
  function GetFromFile(rd: Readers, path: string): (r: Result<Option<int>, Error>)
    ensures r.Failure? ==> r.error == UnreadableDate(path)
  {
    match KindOf(path)
    case Picture => GetFromPictureFile(rd, path)
    case Sidecar => GetFromXmpFile(rd, path)
    case Other => Success(None)
  }

  /** A picture is read by the picture reader. */
  lemma PicturesUsePictureReader(rd: Readers, path: string)
    requires KindOf(path) == Picture
    ensures GetFromFile(rd, path) == GetFromPictureFile(rd, path)
  {
  }

  /** A sidecar is read by the XMP reader. */
  lemma SidecarsUseXmpReader(rd: Readers, path: string)
    requires KindOf(path) == Sidecar
    ensures GetFromFile(rd, path) == GetFromXmpFile(rd, path)
  {
  }

  /** Readers that agree on the EXIF calls. */
  ghost predicate SamePictureReaders(a: Readers, b: Readers) {
    && (forall p :: a.loadExif(p) == b.loadExif(p))
    && (forall x :: a.exifDateTime(x) == b.exifDateTime(x))
  }

  /** Readers that agree on the XMP calls. */
  ghost predicate SameSidecarReaders(a: Readers, b: Readers) {
    && (forall p :: a.parseXml(p) == b.parseXml(p))
    && (forall t :: a.fractionalDateTime(t) == b.fractionalDateTime(t))
    && (forall t :: a.isoDateTime(t) == b.isoDateTime(t))
  }

  /** Any other file is skipped without consulting a reader. */
  lemma OtherFilesAreSkipped(rd: Readers, path: string)
    requires KindOf(path) == Other
    ensures GetFromFile(rd, path) == Success(None)
  {
  }

  /** A picture consults only the EXIF reader. */
  lemma PictureReadsExifOnly(a: Readers, b: Readers, path: string)
    requires KindOf(path) == Picture && SamePictureReaders(a, b)
    ensures GetFromFile(a, path) == GetFromFile(b, path)
  {
    assert a.loadExif(path) == b.loadExif(path);
    var exif := a.loadExif(path);
    if exif.Some? && "Exif" in exif.value && DateTimeOriginalTag in exif.value["Exif"] {
      var raw := exif.value["Exif"][DateTimeOriginalTag];
      assert a.exifDateTime(raw) == b.exifDateTime(raw);
    }
  }

  /** A sidecar consults only the XMP reader. */
  lemma SidecarReadsXmpOnly(a: Readers, b: Readers, path: string)
    requires KindOf(path) == Sidecar && SameSidecarReaders(a, b)
    ensures GetFromFile(a, path) == GetFromFile(b, path)
  {
    assert a.parseXml(path) == b.parseXml(path);
    var root := a.parseXml(path);
    if root.Some? && FindDescription(root.value.children).Some? {
      var attrib := FindDescription(root.value.children).value.attrib;
      if DateTimeOriginalAttribute in attrib {
        var text := attrib[DateTimeOriginalAttribute];
        assert a.fractionalDateTime(text) == b.fractionalDateTime(text);
        assert a.isoDateTime(text) == b.isoDateTime(text);
      }
    }
  }

  /** A file name, with no directory part and no dot. */
  predicate PlainName(name: string) {
    name != [] && '/' !in name && '.' !in name
  }

  lemma LastIndexIs(s: string, c: char, j: nat)
    requires j < |s| && s[j] == c
    requires forall k :: j < k < |s| ==> s[k] != c
    ensures LastIndexOf(s, c) == Some(j)
  {
  }

  lemma LastIndexBefore(s: string, c: char, bound: nat)
    requires forall k :: bound <= k < |s| ==> s[k] != c
    ensures LastIndexOf(s, c).None? || LastIndexOf(s, c).value < bound
  {
  }

  /** The characters of `a + b + c` at each position. */
  lemma ConcatAt(a: string, b: string, c: string)
    ensures forall k :: |a| <= k < |a| + |b| ==> (a + b + c)[k] == b[k - |a|]
    ensures forall k :: |a| + |b| <= k < |a| + |b| + |c| ==> (a + b + c)[k] == c[k - |a| - |b|]
  {
  }

  /** The extension of `dir/name.ext` is `.ext`, whatever the directory holds. */
  lemma ExtensionOfName(dir: string, name: string, ext: string)
    requires PlainName(name) && '/' !in ext && '.' !in ext
    ensures Extension(dir + name + "." + ext) == "." + ext
  {
    var path := dir + name + ("." + ext);
    var dot := |dir| + |name|;
    assert LastIndexOf(path, '.') == Some(dot) by {
      ConcatAt(dir, name, "." + ext);
      LastIndexIs(path, '.', dot);
    }
    assert LastIndexOf(path, '/').None? || LastIndexOf(path, '/').value < |dir| by {
      ConcatAt(dir, name, "." + ext);
      LastIndexBefore(path, '/', |dir|);
    }
    assert path[|dir|] != '.' by {
      ConcatAt(dir, name, "." + ext);
    }
    assert path[dot..] == "." + ext;
    assert path == dir + name + "." + ext;
  }

  /**
    The extension is the suffix from the last dot when some character of the
    last path component before that dot is not a dot.
  */
  lemma ExtensionFromLastDot(path: string, dot: nat, k: nat)
    requires dot < |path| && path[dot] == '.'
    requires forall m :: dot < m < |path| ==> path[m] != '.'
    requires k < dot && path[k] != '.'
    requires forall m :: k <= m < |path| ==> path[m] != '/'
    ensures Extension(path) == path[dot..]
  {
    LastIndexIs(path, '.', dot);
    LastIndexBefore(path, '/', k);
  }

  /**
    Conversely, a non-empty extension starts at a dot that follows some
    character of the last path component other than a dot.
  */
  lemma ExtensionNeedsName(path: string)
    requires Extension(path) != []
    ensures exists k ::
      && 0 <= k < |path| - |Extension(path)|
      && path[k] != '.'
      && forall m :: k <= m < |path| ==> path[m] != '/'
  {
    var dot := LastIndexOf(path, '.').value;
    var start := match LastIndexOf(path, '/') case None => 0 case Some(sep) => sep + 1;
    var k :| start <= k < dot && path[k] != '.';
    assert |path| - |Extension(path)| == dot;
    assert forall m :: k <= m < |path| ==> path[m] != '/';
  }

  /** A name whose only dot leads it, like `.xmp`, has no extension. */
  lemma LeadingDotIsNoExtension(dir: string, ext: string)
    requires '/' !in ext && '.' !in ext
    ensures Extension(dir + "/." + ext) == []
  {
    var path := dir + "/." + ext;
    ConcatAt(dir, "/.", ext);
    LastIndexIs(path, '.', |dir| + 1);
    LastIndexIs(path, '/', |dir|);
  }

  /** What the dispatch makes of a file whose extension is `ext`. */
  lemma KindOfExtension(path: string, ext: string)
    requires Extension(path) == ext
    ensures Lower(ext) in PictureExtensions ==> KindOf(path) == Picture
    ensures Lower(ext) !in PictureExtensions && Lower(ext) in SidecarExtensions ==> KindOf(path) == Sidecar
    ensures Lower(ext) !in PictureExtensions && Lower(ext) !in SidecarExtensions ==> KindOf(path) == Other
  {
  }

  /** The extension is compared after lower-casing: `.JPG` names a picture. */
  lemma UpperCasePicture(dir: string, name: string)
    requires PlainName(name)
    ensures KindOf(dir + name + ".JPG") == Picture
  {
    assert dir + name + ".JPG" == dir + name + "." + "JPG";
    ExtensionOfName(dir, name, "JPG");
    assert Lower(".JPG") in PictureExtensions by {
      assert Lower(".JPG") == ".jpg";
    }
    KindOfExtension(dir + name + ".JPG", ".JPG");
  }

  /** The extension is compared after lower-casing: `.XMP` names a sidecar. */
  lemma UpperCaseSidecar(dir: string, name: string)
    requires PlainName(name)
    ensures KindOf(dir + name + ".XMP") == Sidecar
  {
    assert dir + name + ".XMP" == dir + name + "." + "XMP";
    ExtensionOfName(dir, name, "XMP");
    assert Lower(".XMP") !in PictureExtensions && Lower(".XMP") in SidecarExtensions by {
      assert Lower(".XMP") == ".xmp";
    }
    KindOfExtension(dir + name + ".XMP", ".XMP");
  }

  /** A hidden file such as `.jpg` has no extension, so no reader looks at it. */
  lemma HiddenFileIsOther(dir: string)
    ensures KindOf(dir + "/.jpg") == Other
  {
    assert dir + "/.jpg" == dir + "/." + "jpg";
    LeadingDotIsNoExtension(dir, "jpg");
    assert Lower([]) == [];
  }

  // GetFromPath (src/CaptureDate.py:79-99).

  /**
    What the traversal makes of each file it reads. The traversal below is
    stated for any such reader; the source's is `ReaderOf(rd)`, which is
    `GetFromFile` with the library calls fixed.
  */
  type FileReader = string -> Result<Option<int>, Error>

  function ReaderOf(rd: Readers): FileReader {
    p => GetFromFile(rd, p)
  }

  function AsSet(d: Option<int>): set<int> {
    if d.Some? then {d.value} else {}
  }

  /** The dates one file contributes: none or one. */
  function FileDates(read: FileReader, path: string): Result<set<int>, Error> {
    match read(path)
    case Failure(e) => Failure(e)
    case Success(d) => Success(AsSet(d))
  }

  /** Two parts of a traversal in order: the first exception, else the union of their dates. */
  function Both(a: Result<set<int>, Error>, b: Result<set<int>, Error>): Result<set<int>, Error> {
    match a
    case Failure(e) => Failure(e)
    case Success(x) =>
      match b
      case Failure(e) => Failure(e)
      case Success(y) => Success(x + y)
  }

  /** The set `GetFromPath` returns for a node, or the exception it raises. */
  function DatesIn(read: FileReader, n: Node, visit: bool): Result<set<int>, Error>
    decreases n, 2
  {
    match n
    case File(p) => FileDates(read, p)
    case Dir(_) => DatesFrom(read, n, 0, visit)
    case Missing => Success({})
  }

  /** The dates of a directory's entries from the `i`-th on. */
  function DatesFrom(read: FileReader, n: Node, i: nat, visit: bool): Result<set<int>, Error>
    requires n.Dir? && i <= |n.entries|
    decreases n, 1, |n.entries| - i
  {
    if i == |n.entries| then Success({})
    else Both(EntryDates(read, n, i, visit), DatesFrom(read, n, i + 1, visit))
  }

  /** The dates the `i`-th entry of a directory contributes: a file's own, a subdirectory's when visited. */
  function EntryDates(read: FileReader, n: Node, i: nat, visit: bool): Result<set<int>, Error>
    requires n.Dir? && i < |n.entries|
    decreases n, 0
  {
    var e := n.entries[i];
    if e.File? then FileDates(read, e.path)
    else if e.Dir? && visit then DatesIn(read, e, visit)
    else Success({})
  }

  /** The files the traversal reads, in the order it reads them. */
  function FilesIn(n: Node, visit: bool): seq<string>
    decreases n, 2
  {
    match n
    case File(p) => [p]
    case Dir(_) => FilesFrom(n, 0, visit)
    case Missing => []
  }

  function FilesFrom(n: Node, i: nat, visit: bool): seq<string>
    requires n.Dir? && i <= |n.entries|
    decreases n, 1, |n.entries| - i
  {
    if i == |n.entries| then [] else EntryFiles(n, i, visit) + FilesFrom(n, i + 1, visit)
  }

  function EntryFiles(n: Node, i: nat, visit: bool): seq<string>
    requires n.Dir? && i < |n.entries|
    decreases n, 0
  {
    var e := n.entries[i];
    if e.File? then [e.path] else if e.Dir? && visit then FilesIn(e, visit) else []
  }

  /** Reading the files `fs` in order; the first exception ends it. */
  function ReadAll(read: FileReader, fs: seq<string>): Result<set<int>, Error> {
    if fs == [] then Success({}) else Both(FileDates(read, fs[0]), ReadAll(read, fs[1..]))
  }

  lemma BothAssociative(a: Result<set<int>, Error>, b: Result<set<int>, Error>, c: Result<set<int>, Error>)
    ensures Both(Both(a, b), c) == Both(a, Both(b, c))
  {
    if a.Success? && b.Success? && c.Success? {
      assert (a.value + b.value) + c.value == a.value + (b.value + c.value);
    }
  }

  lemma {:induction false} ReadAllAppend(read: FileReader, fs: seq<string>, gs: seq<string>)
    ensures ReadAll(read, fs + gs) == Both(ReadAll(read, fs), ReadAll(read, gs))
  {
    if fs == [] {
      assert fs + gs == gs;
      if ReadAll(read, gs).Success? {
        assert {} + ReadAll(read, gs).value == ReadAll(read, gs).value;
      }
    } else {
      assert (fs + gs)[0] == fs[0] && (fs + gs)[1..] == fs[1..] + gs;
      ReadAllAppend(read, fs[1..], gs);
      BothAssociative(FileDates(read, fs[0]), ReadAll(read, fs[1..]), ReadAll(read, gs));
    }
  }

  lemma ReadOne(read: FileReader, p: string)
    ensures ReadAll(read, [p]) == FileDates(read, p)
  {
    assert [p][1..] == [];
    if FileDates(read, p).Success? {
      assert FileDates(read, p).value + {} == FileDates(read, p).value;
    }
  }

  /**
    The traversal reads exactly the files `FilesIn` lists, in that order: a
    directory's own files always, those of its subdirectories only when asked.
  */
  lemma {:induction false} DatesInReadsFilesIn(read: FileReader, n: Node, visit: bool)
    ensures DatesIn(read, n, visit) == ReadAll(read, FilesIn(n, visit))
    decreases n, 2
  {
    match n
    case File(p) => ReadOne(read, p);
    case Dir(_) => DatesFromReadsFilesFrom(read, n, 0, visit);
    case Missing =>
  }

  lemma {:induction false} DatesFromReadsFilesFrom(read: FileReader, n: Node, i: nat, visit: bool)
    requires n.Dir? && i <= |n.entries|
    ensures DatesFrom(read, n, i, visit) == ReadAll(read, FilesFrom(n, i, visit))
    decreases n, 1, |n.entries| - i
  {
    if i < |n.entries| {
      ReadAllAppend(read, EntryFiles(n, i, visit), FilesFrom(n, i + 1, visit));
      EntryReadsEntryFiles(read, n, i, visit);
      DatesFromReadsFilesFrom(read, n, i + 1, visit);
    }
  }

  lemma {:induction false} EntryReadsEntryFiles(read: FileReader, n: Node, i: nat, visit: bool)
    requires n.Dir? && i < |n.entries|
    ensures ReadAll(read, EntryFiles(n, i, visit)) == EntryDates(read, n, i, visit)
    decreases n, 0
  {
    var e := n.entries[i];
    if e.File? {
      ReadOne(read, e.path);
    } else if e.Dir? && visit {
      DatesInReadsFilesIn(read, e, visit);
    }
  }

  /**
    Reading a list of files fails exactly when one of them has a date that does
    not parse; otherwise it gives every date the files record, and nothing else.
  */
  lemma {:induction false} ReadAllMeaning(read: FileReader, fs: seq<string>)
    ensures ReadAll(read, fs).Failure? <==> exists p :: p in fs && read(p).Failure?
    ensures ReadAll(read, fs).Success? ==> forall d ::
      d in ReadAll(read, fs).value <==> exists p :: p in fs && read(p) == Success(Some(d))
  {
    if fs != [] {
      assert forall p :: p in fs <==> p == fs[0] || p in fs[1..] by {
        assert fs == [fs[0]] + fs[1..];
      }
      ReadAllMeaning(read, fs[1..]);
    }
  }

  /**
    `GetFromPath` fails exactly when a file it reads has a date that does not
    parse; otherwise its result holds exactly the dates those files record,
    each once.
  */
  lemma DatesInMeaning(read: FileReader, n: Node, visit: bool)
    ensures DatesIn(read, n, visit).Failure? <==> exists p :: p in FilesIn(n, visit) && read(p).Failure?
    ensures DatesIn(read, n, visit).Success? ==> forall d ::
      d in DatesIn(read, n, visit).value <==> exists p :: p in FilesIn(n, visit) && read(p) == Success(Some(d))
  {
    DatesInReadsFilesIn(read, n, visit);
    ReadAllMeaning(read, FilesIn(n, visit));
  }

  /** Without recursion a directory's files are its direct file entries. */
  lemma {:induction false} FilesFromShallow(n: Node, i: nat, p: string)
    requires n.Dir? && i <= |n.entries|
    ensures p in FilesFrom(n, i, false) <==> exists k :: i <= k < |n.entries| && n.entries[k] == File(p)
    decreases |n.entries| - i
  {
    if i < |n.entries| {
      FilesFromShallow(n, i + 1, p);
    }
  }

  /**
    With `VisitSubdirectories` false, a directory's dates come from its direct
    file entries only.
  */
  lemma ShallowDirectory(read: FileReader, es: seq<Node>)
    ensures forall p :: p in FilesIn(Dir(es), false) <==> File(p) in es
    ensures DatesIn(read, Dir(es), false).Success? ==> forall d ::
      d in DatesIn(read, Dir(es), false).value <==> exists p :: File(p) in es && read(p) == Success(Some(d))
  {
    forall p ensures p in FilesIn(Dir(es), false) <==> File(p) in es {
      FilesFromShallow(Dir(es), 0, p);
    }
    DatesInMeaning(read, Dir(es), false);
  }

  /** Entry `k` of directory `n` contributes date `d`. */
  ghost predicate EntryHas(read: FileReader, n: Node, k: nat, visit: bool, d: int)
    requires n.Dir? && k < |n.entries|
  {
    EntryDates(read, n, k, visit).Success? && d in EntryDates(read, n, k, visit).value
  }

  lemma {:induction false} DatesFromUnion(read: FileReader, n: Node, i: nat, visit: bool)
    requires n.Dir? && i <= |n.entries|
    ensures DatesFrom(read, n, i, visit).Failure? <==>
      exists k :: i <= k < |n.entries| && EntryDates(read, n, k, visit).Failure?
    ensures DatesFrom(read, n, i, visit).Success? ==> forall d ::
      d in DatesFrom(read, n, i, visit).value <==>
        exists k :: i <= k < |n.entries| && EntryHas(read, n, k, visit, d)
    decreases |n.entries| - i
  {
    if i < |n.entries| {
      DatesFromUnion(read, n, i + 1, visit);
      var a, b := EntryDates(read, n, i, visit), DatesFrom(read, n, i + 1, visit);
      assert DatesFrom(read, n, i, visit) == Both(a, b);
      if a.Failure? {
        assert EntryDates(read, n, i, visit).Failure?;
      } else if b.Failure? {
        var k :| i + 1 <= k < |n.entries| && EntryDates(read, n, k, visit).Failure?;
      } else {
        forall k | i <= k < |n.entries| ensures EntryDates(read, n, k, visit).Success? {
          if k > i {
            assert !EntryDates(read, n, k, visit).Failure?;
          }
        }
        forall d ensures d in a.value + b.value <==> exists k :: i <= k < |n.entries| && EntryHas(read, n, k, visit, d) {
          if d in a.value {
            assert EntryHas(read, n, i, visit, d);
          } else if d in b.value {
            var k :| i + 1 <= k < |n.entries| && EntryHas(read, n, k, visit, d);
          }
          if exists k :: i <= k < |n.entries| && EntryHas(read, n, k, visit, d) {
            var k :| i <= k < |n.entries| && EntryHas(read, n, k, visit, d);
            if k > i {
              assert d in b.value;
            }
          }
        }
      }
    }
  }

  /**
    A directory's dates are the union of what its entries contribute: each
    file's date, and each subdirectory's dates when subdirectories are visited.
    It fails when any entry does.
  */
  lemma DirectoryIsUnionOfEntries(read: FileReader, es: seq<Node>, visit: bool)
    ensures DatesIn(read, Dir(es), visit).Failure? <==>
      exists k :: 0 <= k < |es| && EntryDates(read, Dir(es), k, visit).Failure?
    ensures DatesIn(read, Dir(es), visit).Success? ==> forall d ::
      d in DatesIn(read, Dir(es), visit).value <==>
        exists k :: 0 <= k < |es| && EntryHas(read, Dir(es), k, visit, d)
  {
    DatesFromUnion(read, Dir(es), 0, visit);
    assert DatesIn(read, Dir(es), visit) == DatesFrom(read, Dir(es), 0, visit);
  }

  /** A path that is neither a directory nor a file has no dates and no bounds. */
  lemma MissingPathIsEmpty(read: FileReader, visit: bool)
    ensures DatesIn(read, Missing, visit) == Success({})
    ensures MinMaxIn(read, Missing, visit) == Success((None, None))
    ensures FilesIn(Missing, visit) == []
  {
  }

  /** Every file the shallow traversal reads, the deep one reads too. */
  lemma {:induction false} FilesFromDeeper(n: Node, i: nat, p: string)
    requires n.Dir? && i <= |n.entries|
    requires p in FilesFrom(n, i, false)
    ensures p in FilesFrom(n, i, true)
    decreases |n.entries| - i
  {
    if p !in EntryFiles(n, i, false) {
      FilesFromDeeper(n, i + 1, p);
    }
  }

  lemma FilesInDeeper(n: Node)
    ensures forall p :: p in FilesIn(n, false) ==> p in FilesIn(n, true)
  {
    forall p | p in FilesIn(n, false) ensures p in FilesIn(n, true) {
      if n.Dir? {
        FilesFromDeeper(n, 0, p);
      }
    }
  }

  /**
    Visiting subdirectories only adds: when the deep traversal succeeds, so
    does the shallow one, with a subset of its dates.
  */
  lemma VisitingAddsDates(read: FileReader, n: Node)
    requires DatesIn(read, n, true).Success?
    ensures DatesIn(read, n, false).Success?
    ensures DatesIn(read, n, false).value <= DatesIn(read, n, true).value
  {
    DatesInMeaning(read, n, true);
    DatesInMeaning(read, n, false);
    FilesInDeeper(n);
    forall d | d in DatesIn(read, n, false).value ensures d in DatesIn(read, n, true).value {
      var p :| p in FilesIn(n, false) && read(p) == Success(Some(d));
      assert p in FilesIn(n, true);
    }
  }

  /** The rest of a traversal, after the dates `acc` already found. */
  function After(r: Result<set<int>, Error>, acc: set<int>): Result<set<int>, Error> {
    match r
    case Failure(e) => Failure(e)
    case Success(s) => Success(acc + s)
  }

  /** One step of the loop over an entry that contributes the dates `found`. */
  lemma DatesStep(read: FileReader, n: Node, i: nat, visit: bool, found: set<int>, acc: set<int>)
    requires n.Dir? && i < |n.entries| && EntryDates(read, n, i, visit) == Success(found)
    ensures After(DatesFrom(read, n, i, visit), acc) == After(DatesFrom(read, n, i + 1, visit), acc + found)
  {
    var rest := DatesFrom(read, n, i + 1, visit);
    if rest.Success? {
      assert acc + (found + rest.value) == (acc + found) + rest.value;
    }
  }

  /** The loop stops at an entry that raises. */
  lemma DatesStepFails(read: FileReader, n: Node, i: nat, visit: bool)
    requires n.Dir? && i < |n.entries| && EntryDates(read, n, i, visit).Failure?
    ensures DatesFrom(read, n, i, visit) == Failure(EntryDates(read, n, i, visit).error)
  {
  }

  lemma AfterNothing(r: Result<set<int>, Error>)
    ensures After(r, {}) == r
  {
    if r.Success? {
      assert {} + r.value == r.value;
    }
  }

  /**
    `GetFromPath(path, VisitSubdirectories)`: the capture dates of the files at
    or under `n`, each once.
  */
  method GetFromPath(read: FileReader, n: Node, visit: bool) returns (r: Result<set<int>, Error>)
    ensures r == DatesIn(read, n, visit)
    decreases n, 1
  {
    match n
    case Dir(_) =>
      r := DatesOfEntries(read, n, visit);
    case File(p) =>
      var d := read(p);
      if d.Failure? {
        return Failure(d.error);
      }
      return Success(AsSet(d.value));
    case Missing =>
      return Success({});
  }

  /** The loop of `GetFromPath` over a directory's entries, collecting their dates. */
  method DatesOfEntries(read: FileReader, n: Node, visit: bool) returns (r: Result<set<int>, Error>)
    requires n.Dir?
    ensures r == DatesFrom(read, n, 0, visit)
    decreases n, 0
  {
    var dates: set<int> := {};
    var i := 0;
    AfterNothing(DatesFrom(read, n, 0, visit));
    while i < |n.entries|
      invariant 0 <= i <= |n.entries|
      invariant After(DatesFrom(read, n, i, visit), dates) == DatesFrom(read, n, 0, visit)
    {
      var e := n.entries[i];
      var found: set<int> := {};
      if e.File? {
        var d := read(e.path);
        if d.Failure? {
          DatesStepFails(read, n, i, visit);
          return Failure(d.error);
        }
        if d.value.Some? {
          found := {d.value.value};
        }
      } else if e.Dir? && visit {
        var sub := GetFromPath(read, e, visit);
        if sub.Failure? {
          DatesStepFails(read, n, i, visit);
          return Failure(sub.error);
        }
        found := sub.value;
      }
      DatesStep(read, n, i, visit, found, dates);
      dates := dates + found;
      i := i + 1;
    }
    assert dates + {} == dates;
    return Success(dates);
  }

  // GetMinAndMaxFromPath (src/CaptureDate.py:102-136).

  /** The running minimum's update: a missing value never replaces a present one. */
  function CombineMin(a: Option<int>, b: Option<int>): (r: Option<int>)
    ensures r.None? <==> a.None? && b.None?
    ensures a.Some? ==> r.Some? && r.value <= a.value
    ensures b.Some? ==> r.Some? && r.value <= b.value
    ensures r.Some? ==> r == a || r == b
  {
    if a.None? then b
    else if b.None? then a
    else Some(if b.value < a.value then b.value else a.value)
  }

  /** The running maximum's update: a missing value never replaces a present one. */
  function CombineMax(a: Option<int>, b: Option<int>): (r: Option<int>)
    ensures r.None? <==> a.None? && b.None?
    ensures a.Some? ==> r.Some? && a.value <= r.value
    ensures b.Some? ==> r.Some? && b.value <= r.value
    ensures r.Some? ==> r == a || r == b
  {
    if a.None? then b
    else if b.None? then a
    else Some(if b.value > a.value then b.value else a.value)
  }

  /** A least and a greatest date, each None when there is none. */
  type Bounds = (Option<int>, Option<int>)

  /** Two parts of a traversal in order: the first exception, else the combined bounds. */
  function BothBounds(a: Result<Bounds, Error>, b: Result<Bounds, Error>): Result<Bounds, Error> {
    match a
    case Failure(e) => Failure(e)
    case Success(x) =>
      match b
      case Failure(e) => Failure(e)
      case Success(y) => Success((CombineMin(x.0, y.0), CombineMax(x.1, y.1)))
  }

  /** The bounds one file contributes: its date twice, or None twice. */
  function FileBounds(read: FileReader, path: string): Result<Bounds, Error> {
    match read(path)
    case Failure(e) => Failure(e)
    case Success(d) => Success((d, d))
  }

  /** The pair `GetMinAndMaxFromPath` returns for a node, or the exception it raises. */
  function MinMaxIn(read: FileReader, n: Node, visit: bool): Result<Bounds, Error>
    decreases n, 2
  {
    match n
    case File(p) => FileBounds(read, p)
    case Dir(_) => MinMaxFrom(read, n, 0, visit)
    case Missing => Success((None, None))
  }

  function MinMaxFrom(read: FileReader, n: Node, i: nat, visit: bool): Result<Bounds, Error>
    requires n.Dir? && i <= |n.entries|
    decreases n, 1, |n.entries| - i
  {
    if i == |n.entries| then Success((None, None))
    else BothBounds(EntryBounds(read, n, i, visit), MinMaxFrom(read, n, i + 1, visit))
  }

  function EntryBounds(read: FileReader, n: Node, i: nat, visit: bool): Result<Bounds, Error>
    requires n.Dir? && i < |n.entries|
    decreases n, 0
  {
    var e := n.entries[i];
    if e.File? then FileBounds(read, e.path)
    else if e.Dir? && visit then MinMaxIn(read, e, visit)
    else Success((None, None))
  }

  /** `lo` and `hi` are the least and the greatest element of `s`, both None when `s` is empty. */
  predicate IsBounds(s: set<int>, lo: Option<int>, hi: Option<int>) {
    && (s == {} <==> lo.None?)
    && (s == {} <==> hi.None?)
    && (lo.Some? ==> lo.value in s && forall x :: x in s ==> lo.value <= x)
    && (hi.Some? ==> hi.value in s && forall x :: x in s ==> x <= hi.value)
  }

  /** Bounds that agree with a set of dates: the same exception, or the set's bounds. */
  predicate Agree(b: Result<Bounds, Error>, s: Result<set<int>, Error>) {
    && (b.Failure? <==> s.Failure?)
    && (b.Failure? ==> b.error == s.error)
    && (b.Success? ==> IsBounds(s.value, b.value.0, b.value.1))
  }

  /** Combining the bounds of two sets gives the bounds of their union. */
  lemma BoundsOfUnion(a: set<int>, alo: Option<int>, ahi: Option<int>, b: set<int>, blo: Option<int>, bhi: Option<int>)
    requires IsBounds(a, alo, ahi) && IsBounds(b, blo, bhi)
    ensures IsBounds(a + b, CombineMin(alo, blo), CombineMax(ahi, bhi))
  {
    if a + b == {} {
      assert a == {} && b == {};
    }
  }

  lemma BothAgree(a: Result<Bounds, Error>, b: Result<Bounds, Error>, s: Result<set<int>, Error>, t: Result<set<int>, Error>)
    requires Agree(a, s) && Agree(b, t)
    ensures Agree(BothBounds(a, b), Both(s, t))
  {
    if a.Success? && b.Success? {
      BoundsOfUnion(s.value, a.value.0, a.value.1, t.value, b.value.0, b.value.1);
    }
  }

  /**
    The running bounds agree with the set of dates: both traversals read the
    same files, fail on the same one, and the bounds are those of the set.
  */
  lemma {:induction false} MinMaxInAgrees(read: FileReader, n: Node, visit: bool)
    ensures Agree(MinMaxIn(read, n, visit), DatesIn(read, n, visit))
    decreases n, 2
  {
    match n
    case File(p) =>
    case Dir(_) => MinMaxFromAgrees(read, n, 0, visit);
    case Missing =>
  }

  lemma {:induction false} MinMaxFromAgrees(read: FileReader, n: Node, i: nat, visit: bool)
    requires n.Dir? && i <= |n.entries|
    ensures Agree(MinMaxFrom(read, n, i, visit), DatesFrom(read, n, i, visit))
    decreases n, 1, |n.entries| - i
  {
    if i < |n.entries| {
      EntryAgrees(read, n, i, visit);
      MinMaxFromAgrees(read, n, i + 1, visit);
      BothAgree(EntryBounds(read, n, i, visit), MinMaxFrom(read, n, i + 1, visit),
        EntryDates(read, n, i, visit), DatesFrom(read, n, i + 1, visit));
    }
  }

  lemma {:induction false} EntryAgrees(read: FileReader, n: Node, i: nat, visit: bool)
    requires n.Dir? && i < |n.entries|
    ensures Agree(EntryBounds(read, n, i, visit), EntryDates(read, n, i, visit))
    decreases n, 0
  {
    var e := n.entries[i];
    if !e.File? && e.Dir? && visit {
      MinMaxInAgrees(read, e, visit);
    }
  }

  /** The rest of a traversal, after the running bounds `lo` and `hi`. */
  function AfterBounds(r: Result<Bounds, Error>, lo: Option<int>, hi: Option<int>): Result<Bounds, Error> {
    match r
    case Failure(e) => Failure(e)
    case Success(b) => Success((CombineMin(lo, b.0), CombineMax(hi, b.1)))
  }

  /** One step of the running bounds over an entry that has its bounds `x`. */
  lemma MinMaxStep(read: FileReader, n: Node, i: nat, visit: bool, x: Bounds, lo: Option<int>, hi: Option<int>)
    requires n.Dir? && i < |n.entries| && EntryBounds(read, n, i, visit) == Success(x)
    ensures AfterBounds(MinMaxFrom(read, n, i, visit), lo, hi)
      == AfterBounds(MinMaxFrom(read, n, i + 1, visit), CombineMin(lo, x.0), CombineMax(hi, x.1))
  {
  }

  /** The running bounds stop at an entry that raises. */
  lemma MinMaxStepFails(read: FileReader, n: Node, i: nat, visit: bool)
    requires n.Dir? && i < |n.entries| && EntryBounds(read, n, i, visit).Failure?
    ensures MinMaxFrom(read, n, i, visit) == Failure(EntryBounds(read, n, i, visit).error)
  {
  }

  /**
    `GetMinAndMaxFromPath(path, VisitSubdirectories)`: the earliest and the
    latest capture date at or under `n`. It fails exactly when `GetFromPath`
    fails; otherwise it is (None, None) exactly when `GetFromPath` finds no
    date, and else the least and the greatest date `GetFromPath` finds.
  */
  method GetMinAndMaxFromPath(read: FileReader, n: Node, visit: bool) returns (r: Result<Bounds, Error>)
    ensures r == MinMaxIn(read, n, visit)
    ensures r.Failure? <==> DatesIn(read, n, visit).Failure?
    ensures r.Failure? ==> r.error == DatesIn(read, n, visit).error
    ensures r.Success? ==> (r.value.0.None? <==> DatesIn(read, n, visit).value == {})
    ensures r.Success? ==> (r.value.1.None? <==> DatesIn(read, n, visit).value == {})
    ensures r.Success? && r.value.0.Some? ==>
      r.value.0.value in DatesIn(read, n, visit).value
      && forall d :: d in DatesIn(read, n, visit).value ==> r.value.0.value <= d
    ensures r.Success? && r.value.1.Some? ==>
      r.value.1.value in DatesIn(read, n, visit).value
      && forall d :: d in DatesIn(read, n, visit).value ==> d <= r.value.1.value
    ensures r.Success? && r.value.0.Some? ==> r.value.1.Some? && r.value.0.value <= r.value.1.value
    decreases n, 1
  {
    MinMaxInAgrees(read, n, visit);
    match n
    case Dir(_) =>
      r := MinMaxOfEntries(read, n, visit);
    case File(p) =>
      var d := read(p);
      if d.Failure? {
        return Failure(d.error);
      }
      return Success((d.value, d.value));
    case Missing =>
      return Success((None, None));
  }

  /** The loop of `GetMinAndMaxFromPath` over a directory's entries, keeping the running bounds. */
  method MinMaxOfEntries(read: FileReader, n: Node, visit: bool) returns (r: Result<Bounds, Error>)
    requires n.Dir?
    ensures r == MinMaxFrom(read, n, 0, visit)
    decreases n, 0
  {
    var lo: Option<int> := None;
    var hi: Option<int> := None;
    var i := 0;
    while i < |n.entries|
      invariant 0 <= i <= |n.entries|
      invariant AfterBounds(MinMaxFrom(read, n, i, visit), lo, hi) == MinMaxFrom(read, n, 0, visit)
    {
      var e := n.entries[i];
      var nextLo: Option<int> := None;
      var nextHi: Option<int> := None;
      if e.File? {
        var d := read(e.path);
        if d.Failure? {
          MinMaxStepFails(read, n, i, visit);
          return Failure(d.error);
        }
        nextLo, nextHi := d.value, d.value;
      } else if e.Dir? && visit {
        var sub := GetMinAndMaxFromPath(read, e, visit);
        if sub.Failure? {
          MinMaxStepFails(read, n, i, visit);
          return Failure(sub.error);
        }
        nextLo, nextHi := sub.value.0, sub.value.1;
      }
      MinMaxStep(read, n, i, visit, (nextLo, nextHi), lo, hi);
      lo, hi := CombineMin(lo, nextLo), CombineMax(hi, nextHi);
      i := i + 1;
    }
    return Success((lo, hi));
  }
}
