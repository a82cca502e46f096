/**
  The video asset store `DiskVideoLoader` (namespace Streamfox.Server.Persistence).

  The loader holds four read-only collaborators injected by its constructor:
  a file lister, a read-opener for the video namespace, a read-opener for the
  thumbnail namespace and an existence checker for the thumbnail namespace.
  Each collaborator is modelled by the storage it observes (a list of paths, a
  map from file name to contents, a set of present names), and the loader is a
  value holding the four of them. Every operation is a function of that value,
  so with unchanged storage every call gives the same answer, and no operation
  changes anything.
*/
module Persistence {
  import opened Wrappers
  import opened Decimal
  import opened Sorting
  import opened Integers

  /**
    A video identifier wrapping a `long`. The source of `VideoId` is not part of
    this model; its `ToString()` is taken to be the decimal form of the value,
    the canonical storage name of a video. The loader's properties use only
    that distinct ids have distinct names (`ToStringInjective`).
  */
  datatype VideoId = VideoId(value: Int64) {
    function ToString(): string {
      IntToString(value)
    }
  }

  type Bytes = seq<bv8>

  datatype OpenError = FileNotFound(name: string)

  /** `IFileLister`: the paths present in a storage root, in no particular order. */
  datatype FileLister = FileLister(files: seq<string>) {
    function ListFiles(): seq<string> {
      files
    }
  }

  /** `IFileReadOpener`: opens the named file of one namespace, from its start. */
  datatype FileReadOpener = FileReadOpener(contents: map<string, Bytes>) {
    function OpenRead(name: string): Result<Bytes, OpenError> {
      if name in contents then Success(contents[name]) else Failure(FileNotFound(name))
    }
  }

  /** `IFileExistenceChecker`: tells whether a name is present, opening nothing. */
  datatype FileExistenceChecker = FileExistenceChecker(present: set<string>) {
    predicate Exists(name: string) {
      name in present
    }
  }

  // ---------------------------------------------------------------------
  // Path.GetFileName

  /** Directory separators as .NET treats them on Windows ('\\' and '/'). */
  predicate IsDirectorySeparator(c: char) {
    c == '/' || c == '\\'
  }

  predicate NoSeparator(s: string) {
    forall i :: 0 <= i < |s| ==> !IsDirectorySeparator(s[i])
  }

  /**
    `Path.GetFileName`: the characters after the last directory separator,
    which is the longest separator-free suffix of the path.
  */
  function FileName(path: string): (name: string)
    ensures |name| <= |path| && name == path[|path| - |name|..]
    ensures NoSeparator(name)
    ensures |name| < |path| ==> IsDirectorySeparator(path[|path| - |name| - 1])
  {
    if path == [] then []
    else if IsDirectorySeparator(path[|path| - 1]) then []
    else FileName(path[..|path| - 1]) + [path[|path| - 1]]
  }

  /** A directory prefix ending in a separator is stripped; a bare name is kept. */
  lemma {:induction false} FileNameOfPath(dir: string, name: string)
    requires dir == [] || IsDirectorySeparator(dir[|dir| - 1])
    requires NoSeparator(name)
    ensures FileName(dir + name) == name
  {
    if name == [] {
      assert dir + name == dir;
    } else {
      var init := name[..|name| - 1];
      var last := name[|name| - 1];
      assert NoSeparator(init) && !IsDirectorySeparator(last);
      assert name == init + [last];
      assert dir + name == (dir + init) + [last];
      FileNameOfPath(dir, init);
      FileNameSnoc(dir + init, last);
    }
  }

  /** A character other than a separator extends the file name. */
  lemma FileNameSnoc(path: string, c: char)
    requires !IsDirectorySeparator(c)
    ensures FileName(path + [c]) == FileName(path) + [c]
  {
    var extended := path + [c];
    assert extended[..|extended| - 1] == path && extended[|extended| - 1] == c;
  }

  // ---------------------------------------------------------------------
  // long.Parse

  /** The failures of `long.Parse`: `FormatException` and `OverflowException`. */
  datatype ParseFailure = FormatError | OverflowError

  /** White space `long.Parse` skips around a number: U+0009 to U+000D and U+0020. */
  predicate IsWhite(c: char) {
    c == ' ' || '\t' <= c <= '\r'
  }

  predicate AllWhite(s: string) {
    forall i :: 0 <= i < |s| ==> IsWhite(s[i])
  }

  function TrimStartWhite(s: string): string {
    if s != [] && IsWhite(s[0]) then TrimStartWhite(s[1..]) else s
  }

  /** White space alone trims to nothing. */
  lemma {:induction false} TrimStartAllWhite(s: string)
    ensures AllWhite(s) ==> TrimStartWhite(s) == []
  {
    if s != [] && IsWhite(s[0]) {
      TrimStartAllWhite(s[1..]);
    }
  }

  function TrimEndWhite(s: string): string {
    if s != [] && IsWhite(s[|s| - 1]) then TrimEndWhite(s[..|s| - 1]) else s
  }

  /** An optional sign followed by the digits it applies to. */
  function SignedValue(t: string): Option<int> {
    var negative := t != [] && t[0] == '-';
    var digits := if t != [] && (t[0] == '-' || t[0] == '+') then t[1..] else t;
    if digits == [] || !AllDigits(digits) then None
    else Some(if negative then -(DigitsValue(digits) as int) else DigitsValue(digits))
  }

  /**
    `long.Parse(s)` with the default number style: optional white space, an
    optional '+' or '-', one or more decimal digits, optional white space; a
    well-formed number outside the `long` range overflows.
  */
  function ParseLong(s: string): (r: Result<Int64, ParseFailure>)
    ensures AllWhite(s) ==> r == Failure(FormatError)
  {
    TrimStartAllWhite(s);
    match SignedValue(TrimEndWhite(TrimStartWhite(s)))
    case None => Failure(FormatError)
    case Some(n) =>
      if -0x8000_0000_0000_0000 <= n <= 0x7FFF_FFFF_FFFF_FFFF then Success(n) else Failure(OverflowError)
  }

  lemma {:induction false} TrimStartOf(ws: string, t: string)
    requires AllWhite(ws) && (t == [] || !IsWhite(t[0]))
    ensures TrimStartWhite(ws + t) == t
  {
    if ws != [] {
      assert (ws + t)[1..] == ws[1..] + t;
      TrimStartOf(ws[1..], t);
    } else {
      assert ws + t == t;
    }
  }

  lemma {:induction false} TrimEndOf(t: string, ws: string)
    requires AllWhite(ws) && (t == [] || !IsWhite(t[|t| - 1]))
    ensures TrimEndWhite(t + ws) == t
  {
    if ws != [] {
      assert (t + ws)[..|t + ws| - 1] == t + ws[..|ws| - 1];
      TrimEndOf(t, ws[..|ws| - 1]);
    } else {
      assert t + ws == t;
    }
  }

  /**
    The grammar `long.Parse` accepts: white space, an optional sign, digits and
    white space parse to the signed value of the digits, or overflow when that
    value is outside the `long` range. Leading zeros are allowed.
  */
  lemma ParseLongAccepts(lead: string, sign: string, digits: string, trail: string)
    requires AllWhite(lead) && AllWhite(trail)
    requires sign == "" || sign == "+" || sign == "-"
    requires digits != [] && AllDigits(digits)
    ensures var n := if sign == "-" then -(DigitsValue(digits) as int) else DigitsValue(digits);
            ParseLong(lead + sign + digits + trail)
              == if -0x8000_0000_0000_0000 <= n <= 0x7FFF_FFFF_FFFF_FFFF then Success(n) else Failure(OverflowError)
  {
    var core := sign + digits;
    assert lead + sign + digits + trail == lead + core + trail;
    TrimmedCore(lead, sign, digits, trail);
    SignedValueOf(sign, digits);
  }

  /** Trimming white space around a signed digit string leaves that string. */
  lemma TrimmedCore(lead: string, sign: string, digits: string, trail: string)
    requires AllWhite(lead) && AllWhite(trail)
    requires sign == "" || sign == "+" || sign == "-"
    requires digits != [] && AllDigits(digits)
    ensures TrimEndWhite(TrimStartWhite(lead + (sign + digits) + trail)) == sign + digits
  {
    var core := sign + digits;
    assert core[|core| - 1] == digits[|digits| - 1];
    assert core[0] == if sign == "" then digits[0] else sign[0];
    assert lead + core + trail == lead + (core + trail);
    TrimStartOf(lead, core + trail);
    TrimEndOf(core, trail);
  }

  lemma SignedValueOf(sign: string, digits: string)
    requires sign == "" || sign == "+" || sign == "-"
    requires digits != [] && AllDigits(digits)
    ensures SignedValue(sign + digits)
            == Some(if sign == "-" then -(DigitsValue(digits) as int) else DigitsValue(digits))
  {
    var t := sign + digits;
    if sign == "" {
      assert t == digits;
    } else {
      assert t[0] == sign[0] && t[1..] == digits;
    }
  }

  /** The text `ParseLongAccepts` describes: white space, an optional sign, digits, white space. */
  ghost predicate InGrammar(s: string) {
    exists lead: string, sign: string, digits: string, trail: string ::
      AllWhite(lead) && AllWhite(trail) && (sign == "" || sign == "+" || sign == "-")
      && digits != [] && AllDigits(digits) && s == lead + sign + digits + trail
  }

  /** Trimming the start removes a white prefix and keeps the rest. */
  lemma {:induction false} TrimStartSplit(s: string) returns (w: string)
    ensures AllWhite(w) && s == w + TrimStartWhite(s)
  {
    if s != [] && IsWhite(s[0]) {
      var tail := s[1..];
      var t := TrimStartWhite(tail);
      assert TrimStartWhite(s) == t;
      var rest := TrimStartSplit(tail);
      w := [s[0]] + rest;
      assert s == [s[0]] + tail;
      WhiteBefore(s[0], rest, t);
    } else {
      w := [];
    }
  }

  /** Trimming the end removes a white suffix and keeps the rest. */
  lemma {:induction false} TrimEndSplit(s: string) returns (w: string)
    ensures AllWhite(w) && s == TrimEndWhite(s) + w
  {
    if s != [] && IsWhite(s[|s| - 1]) {
      var init := s[..|s| - 1];
      var t := TrimEndWhite(init);
      assert TrimEndWhite(s) == t;
      var rest := TrimEndSplit(init);
      w := rest + [s[|s| - 1]];
      assert s == init + [s[|s| - 1]];
      WhiteAfter(t, rest, s[|s| - 1]);
    } else {
      w := [];
    }
  }

  lemma WhiteBefore(c: char, rest: string, t: string)
    requires IsWhite(c) && AllWhite(rest)
    ensures AllWhite([c] + rest) && [c] + (rest + t) == ([c] + rest) + t
  {
  }

  lemma WhiteAfter(t: string, rest: string, c: char)
    requires IsWhite(c) && AllWhite(rest)
    ensures AllWhite(rest + [c]) && (t + rest) + [c] == t + (rest + [c])
  {
  }

  /** Text is its leading white space, its trimmed core and its trailing white space. */
  lemma TrimSplit(s: string) returns (lead: string, trail: string)
    ensures AllWhite(lead) && AllWhite(trail)
    ensures s == lead + TrimEndWhite(TrimStartWhite(s)) + trail
  {
    lead := TrimStartSplit(s);
    trail := TrimEndSplit(TrimStartWhite(s));
  }

  /** A string with a signed value is its sign followed by its digits. */
  lemma SignSplit(u: string) returns (sign: string, digits: string)
    requires SignedValue(u).Some?
    ensures sign == "" || sign == "+" || sign == "-"
    ensures digits != [] && AllDigits(digits)
    ensures u == sign + digits
  {
    if u != [] && (u[0] == '-' || u[0] == '+') {
      sign, digits := u[..1], u[1..];
    } else {
      sign, digits := [], u;
    }
  }

  lemma InGrammarOf(s: string, lead: string, core: string, trail: string, sign: string, digits: string)
    requires AllWhite(lead) && AllWhite(trail) && (sign == "" || sign == "+" || sign == "-")
    requires digits != [] && AllDigits(digits)
    requires s == lead + core + trail && core == sign + digits
    ensures InGrammar(s)
  {
    assert s == lead + sign + digits + trail;
  }

  /** Text whose trimmed core is an optionally signed digit string is in the grammar. */
  lemma GrammarOfSigned(s: string)
    requires SignedValue(TrimEndWhite(TrimStartWhite(s))).Some?
    ensures InGrammar(s)
  {
    var lead, trail := TrimSplit(s);
    var sign, digits := SignSplit(TrimEndWhite(TrimStartWhite(s)));
    InGrammarOf(s, lead, TrimEndWhite(TrimStartWhite(s)), trail, sign, digits);
  }

  /**
    `long.Parse` reports a format error exactly on the text outside the grammar
    of `ParseLongAccepts`; with it, that grammar is the whole of what parses.
  */
  lemma ParseLongRejects(s: string)
    ensures ParseLong(s) == Failure(FormatError) <==> !InGrammar(s)
  {
    if SignedValue(TrimEndWhite(TrimStartWhite(s))).Some? {
      GrammarOfSigned(s);
    }
    if InGrammar(s) {
      var lead: string, sign: string, digits: string, trail: string :|
        AllWhite(lead) && AllWhite(trail) && (sign == "" || sign == "+" || sign == "-")
        && digits != [] && AllDigits(digits) && s == lead + sign + digits + trail;
      ParseLongAccepts(lead, sign, digits, trail);
    }
  }

  /** Parsing the decimal name of an id gives the id back. */
  lemma ParseLongOfToString(id: VideoId)
    ensures ParseLong(id.ToString()) == Success(id.value)
  {
    var v := id.value;
    if v < 0 {
      var m := -(v as int);
      assert id.ToString() == "-" + NatToString(m);
      ParseLongOfNegative(m);
      assert -(m as int) == v;
    } else {
      assert id.ToString() == NatToString(v);
      DigitsValueOfNatToString(v);
      ParseLongOfDigits(NatToString(v));
    }
  }

  /** The rendering of a negative `long` parses back to it. */
  lemma ParseLongOfNegative(m: nat)
    requires 1 <= m <= 0x8000_0000_0000_0000
    ensures ParseLong("-" + NatToString(m)) == Success(-(m as int))
  {
    var digits := NatToString(m);
    DigitsValueOfNatToString(m);
    var t := "-" + digits;
    assert t[0] == '-' && t[|t| - 1] == digits[|digits| - 1];
    assert TrimStartWhite(t) == t;
    assert TrimEndWhite(t) == t;
    SignedValueOf("-", digits);
  }

  /** Distinct ids have distinct storage names, so no two ids share a file. */
  lemma ToStringInjective(a: VideoId, b: VideoId)
    requires a != b
    ensures a.ToString() != b.ToString()
  {
    if a.ToString() == b.ToString() {
      IntToStringInjective(a.value, b.value);
    }
  }

  // ---------------------------------------------------------------------
  // Parsing a listing

  /**
    The error `ListLabels` fails with. The program's exception carries only its
    kind (`failure`); `name`, the first file name that did not parse, is the
    model's own record of where the listing failed.
  */
  datatype LabelError = CorruptLabel(name: string, failure: ParseFailure)

  /** The id each listed path stands for: the parse of its file name. */
  function LabelOf(path: string): (r: Result<Int64, ParseFailure>)
    ensures path == [] || IsDirectorySeparator(path[|path| - 1]) ==> r == Failure(FormatError)
  {
    ParseLong(FileName(path))
  }

  predicate AllLabelsParse(files: seq<string>) {
    forall i :: 0 <= i < |files| ==> LabelOf(files[i]).Success?
  }

  function LabelValues(files: seq<string>): (vs: seq<Int64>)
    requires AllLabelsParse(files)
    ensures |vs| == |files|
  {
    seq(|files|, i requires 0 <= i < |files| => LabelOf(files[i]).value)
  }

  /** The file name and the label of each listed path, in listing order. */
  function FileNames(files: seq<string>): (names: seq<string>)
    ensures |names| == |files|
  {
    seq(|files|, i requires 0 <= i < |files| => FileName(files[i]))
  }

  function Labels(files: seq<string>): (labels: seq<Result<Int64, ParseFailure>>)
    ensures |labels| == |files|
  {
    seq(|files|, i requires 0 <= i < |files| => LabelOf(files[i]))
  }

  /**
    Collects parsed labels in listing order, as `Select(long.Parse)` does when
    `OrderBy` pulls every element: the first name that did not parse ends the
    whole listing with its exception.
  */
  function CollectLabels(names: seq<string>, labels: seq<Result<Int64, ParseFailure>>)
    : (r: Result<seq<Int64>, LabelError>)
    requires |names| == |labels|
    ensures r.Success? <==> forall i :: 0 <= i < |labels| ==> labels[i].Success?
    ensures r.Success? ==> |r.value| == |labels| && forall i :: 0 <= i < |labels| ==> r.value[i] == labels[i].value
    ensures r.Failure? ==>
      exists k :: 0 <= k < |labels| && labels[k].Failure? && (forall i :: 0 <= i < k ==> labels[i].Success?)
        && r.error == CorruptLabel(names[k], labels[k].error)
  {
    if labels == [] then Success([])
    else match labels[0]
      case Failure(f) => Failure(CorruptLabel(names[0], f))
      case Success(v) =>
        match CollectLabels(names[1..], labels[1..])
        case Failure(e) =>
          ghost var k :| 0 <= k < |labels[1..]| && labels[1..][k].Failure?
            && (forall i :: 0 <= i < k ==> labels[1..][i].Success?)
            && e == CorruptLabel(names[1..][k], labels[1..][k].error);
          assert labels[k + 1] == labels[1..][k];
          Failure(e)
        case Success(vs) => Success([v] + vs)
  }

  /** `a <= b`: the key comparison `OrderBy(id => id)` sorts by. */
  predicate AtMost(a: Int64, b: Int64) {
    a <= b
  }

  predicate Ascending(vs: seq<Int64>) {
    SortedBy(vs, AtMost)
  }

  /** The `OrderBy(id => id)` step. */
  function SortAscending(vs: seq<Int64>): (r: seq<Int64>)
    ensures Ascending(r) && multiset(r) == multiset(vs)
  {
    InsertionSort(vs, AtMost)
  }

  function Values(ids: seq<VideoId>): (vs: seq<Int64>)
    ensures |vs| == |ids|
  {
    seq(|ids|, i requires 0 <= i < |ids| => ids[i].value)
  }

  function WrapIds(vs: seq<Int64>): (ids: seq<VideoId>)
    ensures Values(ids) == vs
  {
    seq(|vs|, i requires 0 <= i < |vs| => VideoId(vs[i]))
  }

  // ---------------------------------------------------------------------
  // The loader

  datatype DiskVideoLoader = DiskVideoLoader(
    fileLister: FileLister,
    videoFileReadOpener: FileReadOpener,
    thumbnailFileReadOpener: FileReadOpener,
    thumbnailExistenceChecker: FileExistenceChecker)
  {
    /** Opens the video file named by the id, in the video namespace. */
    function LoadVideo(videoId: VideoId): (r: Result<Bytes, OpenError>)
      ensures r.Success? <==> videoId.ToString() in videoFileReadOpener.contents
      ensures r.Success? ==> r.value == videoFileReadOpener.contents[videoId.ToString()]
      ensures r.Failure? ==> r.error == FileNotFound(videoId.ToString())
    {
      videoFileReadOpener.OpenRead(videoId.ToString())
    }

    /** Opens the thumbnail file named by the id, in the thumbnail namespace. */
    function LoadThumbnail(videoId: VideoId): (r: Result<Bytes, OpenError>)
      ensures r.Success? <==> videoId.ToString() in thumbnailFileReadOpener.contents
      ensures r.Success? ==> r.value == thumbnailFileReadOpener.contents[videoId.ToString()]
      ensures r.Failure? ==> r.error == FileNotFound(videoId.ToString())
    {
      thumbnailFileReadOpener.OpenRead(videoId.ToString())
    }

    /**
      Every listed path's file name parsed as a `long`, sorted ascending and
      wrapped as ids; fails as a whole on the first name that does not parse.
    */
    function ListLabels(): (r: Result<seq<VideoId>, LabelError>)
      ensures r.Success? ==> |r.value| == |fileLister.files| && Ascending(Values(r.value))
    {
      var files := fileLister.ListFiles();
      match CollectLabels(FileNames(files), Labels(files))
      case Failure(e) => Failure(e)
      case Success(vs) =>
        var sorted := SortAscending(vs);
        assert |sorted| == |multiset(sorted)| == |multiset(vs)| == |vs|;
        assert Values(WrapIds(sorted)) == sorted;
        Success(WrapIds(sorted))
    }

    /** Asks the thumbnail existence checker about the id's name; opens nothing. */
    function ThumbnailExists(videoId: VideoId): (b: bool)
      ensures thumbnailExistenceChecker.present == thumbnailFileReadOpener.contents.Keys ==>
        (b <==> LoadThumbnail(videoId).Success?)
    {
      thumbnailExistenceChecker.Exists(videoId.ToString())
    }
  }

  // ---------------------------------------------------------------------
  // Properties of the loader

  /** `ListLabels` succeeds exactly when every listed file name parses. */
  lemma ListLabelsSucceedsIff(loader: DiskVideoLoader)
    ensures loader.ListLabels().Success? <==> AllLabelsParse(loader.fileLister.files)
  {
    var files := loader.fileLister.files;
    var labels := Labels(files);
    var collected := CollectLabels(FileNames(files), labels);
    assert loader.ListLabels().Success? <==> collected.Success?;
    if collected.Success? {
      forall i | 0 <= i < |files|
        ensures LabelOf(files[i]).Success?
      {
        assert labels[i] == LabelOf(files[i]);
      }
    }
  }

  /**
    The listing depends on the lister alone: loaders that share it list the
    same ids or fail with the same error, whatever their openers and checker.
  */
  lemma ListLabelsReadsOnlyLister(loader: DiskVideoLoader, other: DiskVideoLoader)
    requires other.fileLister == loader.fileLister
    ensures other.ListLabels() == loader.ListLabels()
  {
  }

  /**
    On success: one id per listed file, in ascending order, and the ids are a
    permutation of the labels of the listed files. Nothing is deduplicated.
  */
  lemma ListLabelsSortedPermutation(loader: DiskVideoLoader)
    requires AllLabelsParse(loader.fileLister.files)
    ensures loader.ListLabels().Success?
    ensures var ids := loader.ListLabels().value;
      && |ids| == |loader.fileLister.files|
      && Ascending(Values(ids))
      && multiset(Values(ids)) == multiset(LabelValues(loader.fileLister.files))
  {
    ListLabelsOfParsed(loader);
    var vs := LabelValues(loader.fileLister.files);
    var sorted := SortAscending(vs);
    assert |sorted| == |vs| by {
      assert |multiset(sorted)| == |multiset(vs)|;
    }
  }

  /** When every name parses, the listing is the sorted label values, wrapped. */
  lemma ListLabelsOfParsed(loader: DiskVideoLoader)
    requires AllLabelsParse(loader.fileLister.files)
    ensures loader.ListLabels() == Success(WrapIds(SortAscending(LabelValues(loader.fileLister.files))))
  {
    var files := loader.fileLister.files;
    var labels := Labels(files);
    assert forall i :: 0 <= i < |files| ==> labels[i] == LabelOf(files[i]);
    var collected := CollectLabels(FileNames(files), labels);
    assert collected.Success?;
    assert collected.value == LabelValues(files);
  }

  /**
    On failure: the error names the file name of some listed path, that name
    does not parse (with the exception `long.Parse` raises), and every path
    listed before it does parse.
  */
  lemma ListLabelsFailsOnFirstCorrupt(loader: DiskVideoLoader)
    requires loader.ListLabels().Failure?
    ensures var files := loader.fileLister.files;
      exists k :: 0 <= k < |files| && (forall i :: 0 <= i < k ==> LabelOf(files[i]).Success?)
        && LabelOf(files[k]).Failure?
        && loader.ListLabels().error == CorruptLabel(FileName(files[k]), LabelOf(files[k]).error)
  {
    var files := loader.fileLister.files;
    assert loader.ListLabels().error == CollectLabels(FileNames(files), Labels(files)).error;
    CollectedFailure(files);
  }

  /** The failure `CollectLabels` reports on a listing, in terms of its paths. */
  lemma CollectedFailure(files: seq<string>)
    requires CollectLabels(FileNames(files), Labels(files)).Failure?
    ensures exists k ::
      && 0 <= k < |files|
      && (forall i :: 0 <= i < k ==> LabelOf(files[i]).Success?)
      && LabelOf(files[k]).Failure?
      && CollectLabels(FileNames(files), Labels(files)).error == CorruptLabel(FileName(files[k]), LabelOf(files[k]).error)
  {
    var labels := Labels(files);
    var names := FileNames(files);
    var collected := CollectLabels(names, labels);
    var k :| 0 <= k < |labels| && labels[k].Failure? && (forall i :: 0 <= i < k ==> labels[i].Success?)
      && collected.error == CorruptLabel(names[k], labels[k].error);
    LabelsAt(files);
    PrefixParses(files, k);
    assert names[k] == FileName(files[k]);
  }

  /** The label at each position is that of the path at that position. */
  lemma LabelsAt(files: seq<string>)
    ensures forall i :: 0 <= i < |files| ==> Labels(files)[i] == LabelOf(files[i])
  {
  }

  /** When the labels before `k` parsed, so did the paths before `k`. */
  lemma PrefixParses(files: seq<string>, k: int)
    requires 0 <= k <= |files|
    requires forall i :: 0 <= i < k ==> Labels(files)[i].Success?
    ensures forall i :: 0 <= i < k ==> LabelOf(files[i]).Success?
  {
    LabelsAt(files);
  }

  /** The rendered names of ids, each under a directory prefix. */
  function PathsOf(dir: string, ids: seq<VideoId>): (paths: seq<string>)
    ensures |paths| == |ids|
  {
    seq(|ids|, i requires 0 <= i < |ids| => dir + ids[i].ToString())
  }

  /**
    Listing files named by ids (under any directory) gives those ids back in
    ascending order: the parse of a name inverts the rendering of an id.
  */
  lemma ListLabelsRecoversIds(loader: DiskVideoLoader, dir: string, ids: seq<VideoId>)
    requires dir == [] || IsDirectorySeparator(dir[|dir| - 1])
    requires loader.fileLister.files == PathsOf(dir, ids)
    ensures loader.ListLabels().Success?
    ensures Ascending(Values(loader.ListLabels().value))
    ensures multiset(Values(loader.ListLabels().value)) == multiset(Values(ids))
  {
    LabelsOfIdPaths(dir, ids);
    ListLabelsSortedPermutation(loader);
  }

  lemma LabelsOfIdPaths(dir: string, ids: seq<VideoId>)
    requires dir == [] || IsDirectorySeparator(dir[|dir| - 1])
    ensures AllLabelsParse(PathsOf(dir, ids))
    ensures LabelValues(PathsOf(dir, ids)) == Values(ids)
  {
    var files := PathsOf(dir, ids);
    forall i | 0 <= i < |ids|
      ensures LabelOf(files[i]) == Success(ids[i].value)
    {
      LabelOfIdPath(dir, ids[i]);
    }
    assert LabelValues(files) == Values(ids);
  }

  /** The label of a path naming an id under a directory is that id. */
  lemma LabelOfIdPath(dir: string, id: VideoId)
    requires dir == [] || IsDirectorySeparator(dir[|dir| - 1])
    ensures LabelOf(dir + id.ToString()) == Success(id.value)
  {
    var v := id.value;
    var mag: nat := if v < 0 then -(v as int) else v;
    NatToStringCanonical(mag);
    assert NoSeparator(id.ToString()) by {
      if v < 0 {
        assert id.ToString() == "-" + NatToString(mag);
      }
    }
    FileNameOfPath(dir, id.ToString());
    ParseLongOfToString(id);
  }

  /** `LoadVideo` opens the id's own name in the video namespace and nothing else. */
  lemma LoadVideoOpensItsName(loader: DiskVideoLoader, videoId: VideoId, other: FileReadOpener)
    ensures var name := videoId.ToString();
      && (loader.LoadVideo(videoId).Success? <==> name in loader.videoFileReadOpener.contents)
      && (loader.LoadVideo(videoId).Success? ==> loader.LoadVideo(videoId).value == loader.videoFileReadOpener.contents[name])
      && (loader.LoadVideo(videoId).Failure? ==> loader.LoadVideo(videoId).error == FileNotFound(name))
      && loader.(thumbnailFileReadOpener := other).LoadVideo(videoId) == loader.LoadVideo(videoId)
  {
  }

  /** `LoadThumbnail` opens the id's own name in the thumbnail namespace and nothing else. */
  lemma LoadThumbnailOpensItsName(loader: DiskVideoLoader, videoId: VideoId, other: FileReadOpener)
    ensures var name := videoId.ToString();
      && (loader.LoadThumbnail(videoId).Success? <==> name in loader.thumbnailFileReadOpener.contents)
      && (loader.LoadThumbnail(videoId).Success? ==> loader.LoadThumbnail(videoId).value == loader.thumbnailFileReadOpener.contents[name])
      && (loader.LoadThumbnail(videoId).Failure? ==> loader.LoadThumbnail(videoId).error == FileNotFound(name))
      && loader.(videoFileReadOpener := other).LoadThumbnail(videoId) == loader.LoadThumbnail(videoId)
  {
  }

  /**
    A file stored for one id is never what another id loads: storing contents
    under id `a`'s name leaves what id `b` loads, from either namespace, unchanged.
  */
  lemma StoringOneIdLeavesOthers(loader: DiskVideoLoader, a: VideoId, b: VideoId, contents: Bytes)
    requires a != b
    ensures var video := loader.(videoFileReadOpener :=
              FileReadOpener(loader.videoFileReadOpener.contents[a.ToString() := contents]));
      video.LoadVideo(a) == Success(contents) && video.LoadVideo(b) == loader.LoadVideo(b)
    ensures var thumb := loader.(thumbnailFileReadOpener :=
              FileReadOpener(loader.thumbnailFileReadOpener.contents[a.ToString() := contents]));
      thumb.LoadThumbnail(a) == Success(contents) && thumb.LoadThumbnail(b) == loader.LoadThumbnail(b)
  {
    ToStringInjective(a, b);
  }

  /**
    `ThumbnailExists` is the checker's answer for the id's name, whatever the
    lister and the openers hold: true right after the name is added, unchanged
    for every other id. When the checker and the
    thumbnail opener observe the same files, it holds exactly when
    `LoadThumbnail` would succeed.
  */
  lemma ThumbnailExistsTracksChecker(loader: DiskVideoLoader, a: VideoId, b: VideoId,
                                     lister: FileLister, video: FileReadOpener, thumbnail: FileReadOpener)
    requires a != b
    ensures loader.ThumbnailExists(a) <==> a.ToString() in loader.thumbnailExistenceChecker.present
    ensures loader.(fileLister := lister, videoFileReadOpener := video, thumbnailFileReadOpener := thumbnail)
      .ThumbnailExists(a) == loader.ThumbnailExists(a)
    ensures var added := loader.(thumbnailExistenceChecker :=
              FileExistenceChecker(loader.thumbnailExistenceChecker.present + {a.ToString()}));
      added.ThumbnailExists(a) && (added.ThumbnailExists(b) == loader.ThumbnailExists(b))
    ensures loader.thumbnailExistenceChecker.present == loader.thumbnailFileReadOpener.contents.Keys ==>
      (loader.ThumbnailExists(a) <==> loader.LoadThumbnail(a).Success?)
  {
    ToStringInjective(a, b);
  }

  /**
    Names that differ only in leading zeros both yield their id and nothing is
    deduplicated: "n" and "0n" list as the id n twice.
  */
  lemma ListLabelsKeepsDuplicates(loader: DiskVideoLoader, dir: string, n: nat)
    requires dir == [] || IsDirectorySeparator(dir[|dir| - 1])
    requires n <= 0x7FFF_FFFF_FFFF_FFFF
    requires loader.fileLister.files == [dir + NatToString(n), dir + ("0" + NatToString(n))]
    ensures loader.ListLabels() == Success([VideoId(n), VideoId(n)])
  {
    var files := loader.fileLister.files;
    assert LabelOf(files[0]) == Success(n) by {
      LabelOfIdPath(dir, VideoId(n));
    }
    assert LabelOf(files[1]) == Success(n) by {
      LabelOfPaddedPath(dir, n);
    }
    ListLabelsOfEqualPair(loader, n);
  }

  lemma ListLabelsOfEqualPair(loader: DiskVideoLoader, n: Int64)
    requires var files := loader.fileLister.files;
      |files| == 2 && LabelOf(files[0]) == Success(n) && LabelOf(files[1]) == Success(n)
    ensures loader.ListLabels() == Success([VideoId(n), VideoId(n)])
  {
    var files := loader.fileLister.files;
    assert AllLabelsParse(files) by {
      forall i | 0 <= i < |files|
        ensures LabelOf(files[i]).Success?
      {
        if i == 0 { } else { assert i == 1; }
      }
    }
    var vs := LabelValues(files);
    assert vs[0] == n && vs[1] == n;
    SortedPairOfEqual(vs, n);
    ListLabelsOfParsed(loader);
  }

  /** Sorting two equal values keeps both. */
  lemma SortedPairOfEqual(vs: seq<Int64>, n: Int64)
    requires |vs| == 2 && vs[0] == n && vs[1] == n
    ensures WrapIds(SortAscending(vs)) == [VideoId(n), VideoId(n)]
  {
    var r := SortAscending(vs);
    assert |r| == 2 by { assert |multiset(r)| == |multiset(vs)|; }
    assert r[0] in multiset(vs) && r[1] in multiset(vs);
    assert r[0] in vs && r[1] in vs;
    var ids := WrapIds(r);
    assert ids[0] == VideoId(n) && ids[1] == VideoId(n);
  }

  /** The label of a path naming a value with one leading zero is that value. */
  lemma LabelOfPaddedPath(dir: string, n: nat)
    requires dir == [] || IsDirectorySeparator(dir[|dir| - 1])
    requires n <= 0x7FFF_FFFF_FFFF_FFFF
    ensures LabelOf(dir + ("0" + NatToString(n))) == Success(n)
  {
    var padded := "0" + NatToString(n);
    PaddedDigits(n);
    FileNameOfPath(dir, padded);
    assert FileName(dir + padded) == padded;
    ParseLongOfDigits(padded);
    assert LabelOf(dir + padded) == ParseLong(padded);
  }

  lemma PaddedDigits(n: nat)
    ensures var padded := "0" + NatToString(n);
      AllDigits(padded) && NoSeparator(padded) && DigitsValue(padded) == n
  {
    LeadingZero(NatToString(n));
    DigitsValueOfNatToString(n);
  }

  /** A bare digit string in range parses to its value. */
  lemma ParseLongOfDigits(digits: string)
    requires digits != [] && AllDigits(digits) && DigitsValue(digits) <= 0x7FFF_FFFF_FFFF_FFFF
    ensures ParseLong(digits) == Success(DigitsValue(digits))
  {
    assert TrimStartWhite(digits) == digits;
    assert TrimEndWhite(digits) == digits;
    SignedValueOf("", digits);
    assert "" + digits == digits;
  }

  /** A leading zero does not change the value of a digit string. */
  lemma {:induction false} LeadingZero(s: string)
    requires AllDigits(s)
    ensures AllDigits("0" + s) && DigitsValue("0" + s) == DigitsValue(s)
  {
    var t := "0" + s;
    if s != [] {
      assert t[..|t| - 1] == "0" + s[..|s| - 1];
      LeadingZero(s[..|s| - 1]);
    }
  }
}
