/** The walk over a folder and the per-file decision of `main`
    (src/main.rs:75-99): a file is reported when it is a regular file with
    extension `exe` in any ASCII case, its manifest could be read, and the
    manifest matches both the autoElevate and the requireAdministrator
    patterns. */
module Scanner {
  import opened TokenPattern
  import opened ManifestPatterns
  import opened AsciiCase

  datatype Option<T> = None | Some(value: T)

  datatype Result<T, E> = Ok(value: T) | Err(error: E)

  /** Why the manifest of a file could not be read: the file could not be
      read, it is not a PE image, or it has no manifest resource. */
  datatype ExportError = IoError | PeError | PeFindError

  /** An entry the directory walk could not read. */
  datatype WalkError = WalkError

  /** One entry of the walk: its path, whether it is a regular file, the
      extension of its file name if it has one, and what reading its manifest
      gives. The manifest is only looked at for `.exe` files, as in
      `main`. */
  datatype Entry = Entry(
    path: string,
    isFile: bool,
    extension: Option<string>,
    manifest: Result<string, ExportError>)

  const FoundPrefix: string := "Found EXE: "

  /** The line printed for one entry, if any. */
  function Report(e: Entry): Option<string> {
    if !e.isFile then None
    else match e.extension
      case None => None
      case Some(ext) =>
        if !IsExe(ext) then None
        else match e.manifest
          case Err(_) => None
          case Ok(m) =>
            if IsMatch(AutoElevate, m) && IsMatch(RequireAdministrator, m) then Some(FoundPrefix + e.path)
            else None
  }

  /** The manifest of an entry, when the entry is reported, is elevating: it
      matches both patterns in the sense of the declarative search. */
  ghost predicate Elevating(m: string) {
    Matches(AutoElevate, m) && Matches(RequireAdministrator, m)
  }

  /** An entry is reported exactly when it is a regular file, it has an
      extension equal to `exe` ignoring ASCII case, its manifest was read, and
      the manifest matches both patterns; the line names the entry's path. */
  lemma ReportIff(e: Entry)
    ensures Report(e).Some? <==>
      e.isFile && e.extension.Some? && IsExe(e.extension.value)
      && e.manifest.Ok? && Elevating(e.manifest.value)
    ensures Report(e).Some? ==> Report(e).value == FoundPrefix + e.path
  {
    ReportUnfolded(e);
    if e.manifest.Ok? {
      ElevatingIsMatch(e.manifest.value);
    }
  }

  /** `Report`'s branches spelled out with the executable matcher; a step
      towards `ReportIff`, which states them with the declarative search. */
  lemma ReportUnfolded(e: Entry)
    ensures Report(e).Some? <==>
      e.isFile && e.extension.Some? && IsExe(e.extension.value)
      && e.manifest.Ok? && IsMatch(AutoElevate, e.manifest.value) && IsMatch(RequireAdministrator, e.manifest.value)
    ensures Report(e).Some? ==> Report(e).value == FoundPrefix + e.path
  {
  }

  lemma ElevatingIsMatch(m: string)
    ensures Elevating(m) <==> IsMatch(AutoElevate, m) && IsMatch(RequireAdministrator, m)
  {
    IsMatchCorrect(AutoElevate, m);
    IsMatchCorrect(RequireAdministrator, m);
  }

  /** A manifest that cannot be read never leads to a report, whatever the
      entry. */
  lemma ManifestErrorNotReported(e: Entry)
    requires e.manifest.Err?
    ensures Report(e) == None
  {
  }

  /** The lines printed for one item of the walk. */
  function LinesOf(item: Result<Entry, WalkError>): seq<string> {
    match item
    case Err(_) => []
    case Ok(e) => match Report(e) case None => [] case Some(line) => [line]
  }

  /** `f` applied to every element of `s`, in order. */
  function MapSeq<A, B>(f: A -> B, s: seq<A>): (r: seq<B>)
    ensures |r| == |s| && forall k :: 0 <= k < |s| ==> r[k] == f(s[k])
  {
    seq(|s|, k requires 0 <= k < |s| => f(s[k]))
  }

  lemma MapSeqAppend<A, B>(f: A -> B, a: seq<A>, b: seq<A>)
    ensures MapSeq(f, a + b) == MapSeq(f, a) + MapSeq(f, b)
  {
  }

  lemma MapSeqSlice<A, B>(f: A -> B, s: seq<A>, i: nat, j: nat)
    requires i <= j <= |s|
    ensures MapSeq(f, s[i..j]) == MapSeq(f, s)[i..j]
  {
  }

  /** The lines printed for a whole walk, in walk order. */
  function Output(items: seq<Result<Entry, WalkError>>): seq<string> {
    Flatten(MapSeq(LinesOf, items))
  }

  /** The parts one after the other. */
  function Flatten<T>(parts: seq<seq<T>>): seq<T>
    decreases |parts|
  {
    if parts == [] then [] else Flatten(parts[..|parts| - 1]) + parts[|parts| - 1]
  }

  /** The loop of `main`: entries the walk could not read are skipped, and
      each entry's line, if any, is printed in turn. */
  method Scan(items: seq<Result<Entry, WalkError>>) returns (lines: seq<string>)
    ensures lines == Output(items)
  {
    lines := [];
    for i := 0 to |items|
      invariant lines == Flatten(MapSeq(LinesOf, items)[..i])
    {
      assert MapSeq(LinesOf, items)[..i + 1][..i] == MapSeq(LinesOf, items)[..i];
      match items[i]
      case Err(_) =>
      case Ok(e) =>
        match Report(e)
        case None =>
        case Some(line) =>
          lines := lines + [line];
    }
    assert MapSeq(LinesOf, items)[..|items|] == MapSeq(LinesOf, items);
  }

  /** Flattening two lists of parts one after the other. */
  lemma {:induction false} FlattenAppend<T>(a: seq<seq<T>>, b: seq<seq<T>>)
    ensures Flatten(a + b) == Flatten(a) + Flatten(b)
    decreases |b|
  {
    if b == [] {
      assert a + b == a;
    } else {
      var c := b[..|b| - 1];
      var x := b[|b| - 1];
      assert a + b == (a + c) + [x];
      FlattenAppend(a, c);
      calc {
        Flatten(a + b);
        Flatten((a + c) + [x]);
        { assert ((a + c) + [x])[..|a + c|] == a + c; }
        Flatten(a + c) + x;
        Flatten(a) + Flatten(c) + x;
      }
    }
  }

  /** An empty part can be dropped. */
  lemma FlattenSkip<T>(parts: seq<seq<T>>, k: nat)
    requires k < |parts| && parts[k] == []
    ensures Flatten(parts) == Flatten(parts[..k]) + Flatten(parts[k + 1..])
  {
    var a, b := parts[..k], parts[k + 1..];
    assert parts == (a + [[]]) + b;
    FlattenAppend(a + [[]], b);
    FlattenSnoc(a, []);
    assert Flatten(a) + [] == Flatten(a);
  }

  /** One more part at the end is appended to the flattening. */
  lemma FlattenSnoc<T>(parts: seq<seq<T>>, x: seq<T>)
    ensures Flatten(parts + [x]) == Flatten(parts) + x
  {
    assert (parts + [x])[..|parts|] == parts;
  }

  /** Every element of the flattening is in one of the parts. */
  lemma {:induction false} FlattenSound<T>(parts: seq<seq<T>>, x: T)
    requires x in Flatten(parts)
    ensures exists k :: 0 <= k < |parts| && x in parts[k]
    decreases |parts|
  {
    var n := |parts| - 1;
    if x in Flatten(parts[..n]) {
      FlattenSound(parts[..n], x);
      var k :| 0 <= k < n && x in parts[..n][k];
      assert parts[k] == parts[..n][k];
    } else {
      assert x in parts[n];
    }
  }

  /** Every element of every part is in the flattening. */
  lemma {:induction false} FlattenComplete<T>(parts: seq<seq<T>>, k: nat, x: T)
    requires k < |parts| && x in parts[k]
    ensures x in Flatten(parts)
    decreases |parts|
  {
    var n := |parts| - 1;
    if k < n {
      assert parts[..n][k] == parts[k];
      FlattenComplete(parts[..n], k, x);
    }
  }

  /** Parts of at most one element flatten to no more elements than parts. */
  lemma {:induction false} FlattenBounded<T>(parts: seq<seq<T>>)
    requires forall k :: 0 <= k < |parts| ==> |parts[k]| <= 1
    ensures |Flatten(parts)| <= |parts|
    decreases |parts|
  {
    if parts != [] {
      FlattenBounded(parts[..|parts| - 1]);
    }
  }

  /** The output of two walks one after the other is the two outputs in turn. */
  lemma OutputAppend(a: seq<Result<Entry, WalkError>>, b: seq<Result<Entry, WalkError>>)
    ensures Output(a + b) == Output(a) + Output(b)
  {
    MapSeqAppend(LinesOf, a, b);
    FlattenAppend(MapSeq(LinesOf, a), MapSeq(LinesOf, b));
  }

  /** An item that prints nothing (an unreadable walk entry, an entry that is
      not an `.exe` file, or one whose manifest could not be read or does not
      match) leaves the rest of the scan unchanged. */
  lemma SilentItemDoesNotStopScan(items: seq<Result<Entry, WalkError>>, k: nat)
    requires k < |items| && LinesOf(items[k]) == []
    ensures Output(items) == Output(items[..k]) + Output(items[k + 1..])
  {
    var parts := MapSeq(LinesOf, items);
    FlattenSkip(parts, k);
    MapSeqSlice(LinesOf, items, 0, k);
    MapSeqSlice(LinesOf, items, k + 1, |items|);
    assert items[0..k] == items[..k] && parts[0..k] == parts[..k];
    assert items[k + 1..|items|] == items[k + 1..] && parts[k + 1..|items|] == parts[k + 1..];
  }

  /** A manifest read error in the middle of the walk does not stop the scan. */
  lemma ManifestErrorDoesNotStopScan(items: seq<Result<Entry, WalkError>>, k: nat)
    requires k < |items| && items[k].Ok? && items[k].value.manifest.Err?
    ensures Output(items) == Output(items[..k]) + Output(items[k + 1..])
  {
    SilentItemDoesNotStopScan(items, k);
  }

  /** Every printed line comes from a readable entry that is reported. */
  lemma OutputSound(items: seq<Result<Entry, WalkError>>, line: string)
    requires line in Output(items)
    ensures exists k :: 0 <= k < |items| && items[k].Ok? && Report(items[k].value) == Some(line)
  {
    FlattenSound(MapSeq(LinesOf, items), line);
    var k :| 0 <= k < |items| && line in MapSeq(LinesOf, items)[k];
    assert line in LinesOf(items[k]);
  }

  /** Every readable entry that is reported is printed. */
  lemma OutputComplete(items: seq<Result<Entry, WalkError>>, k: nat)
    requires k < |items| && items[k].Ok? && Report(items[k].value).Some?
    ensures Report(items[k].value).value in Output(items)
  {
    assert MapSeq(LinesOf, items)[k] == [Report(items[k].value).value];
    FlattenComplete(MapSeq(LinesOf, items), k, Report(items[k].value).value);
  }

  /** At most one line per item. */
  lemma OutputBounded(items: seq<Result<Entry, WalkError>>)
    ensures |Output(items)| <= |items|
  {
    FlattenBounded(MapSeq(LinesOf, items));
  }

  // ---------------------------------------------------------------------------
  // Whole-entry examples

  // `SameMatch` and `TwoSegments` only carry facts between differently
  // grouped spellings of the same text.

  lemma SameMatch(p: Pattern, u: string, t: string)
    requires IsMatch(p, u) && u == t
    ensures IsMatch(p, t)
  {
  }

  lemma TwoSegments(p: Pattern, q: Pattern, pre: string, x: string, mid: string, y: string, suf: string)
    requires IsMatch(p, x) && IsMatch(q, y)
    ensures IsMatch(p, pre + x + mid + y + suf) && IsMatch(q, pre + x + mid + y + suf)
  {
    assert pre + x + (mid + y + suf) == pre + x + mid + y + suf;
    assert (pre + x + mid) + y + suf == pre + x + mid + y + suf;
    IsMatchExtend(p, x, pre, mid + y + suf);
    SameMatch(p, pre + x + (mid + y + suf), pre + x + mid + y + suf);
    IsMatchExtend(q, y, pre + x + mid, suf);
    SameMatch(q, (pre + x + mid) + y + suf, pre + x + mid + y + suf);
  }

  /** A manifest holding an autoElevate element and a requestedExecutionLevel
      element, in either order and with any text around them, is elevating. */
  lemma BothElementsElevate(pre: string, a: string, mid: string, r: string, suf: string)
    requires IsMatch(AutoElevate, a) && IsMatch(RequireAdministrator, r)
    ensures IsMatch(AutoElevate, pre + a + mid + r + suf)
    ensures IsMatch(RequireAdministrator, pre + a + mid + r + suf)
    ensures IsMatch(AutoElevate, pre + r + mid + a + suf)
    ensures IsMatch(RequireAdministrator, pre + r + mid + a + suf)
  {
    TwoSegments(AutoElevate, RequireAdministrator, pre, a, mid, r, suf);
    TwoSegments(RequireAdministrator, AutoElevate, pre, r, mid, a, suf);
  }

  /** A `.EXE` file whose manifest holds both elements, with any text around
      them, is reported. */
  lemma ElevatingExeReported(path: string, pre: string, mid: string, suf: string)
    ensures Report(Entry(path, true, Some("EXE"),
      Ok(pre + Fill(AutoElevateTokens, ["", "", "", "", "", "", ""]) + mid
         + Fill(RequireAdministratorTokens, ["", " ", "", ""]) + suf)))
      == Some(FoundPrefix + path)
  {
    var runs := ["", "", "", "", "", "", ""];
    assert forall n :: 0 <= n < 7 ==> AllIn(Space, runs[n]);
    AutoElevateToleratesWhitespace(runs);
    RequireAdministratorExamples();
    BothElementsElevate(pre, Fill(AutoElevateTokens, runs), mid, Fill(RequireAdministratorTokens, ["", " ", "", ""]), suf);
    IsExeExamples();
  }

  /** The same file is not reported when it is a directory, when its
      extension is `exes`, or when its manifest could not be read. */
  lemma NotReportedExamples(path: string, m: string, err: ExportError)
    ensures Report(Entry(path, false, Some("exe"), Ok(m))) == None
    ensures Report(Entry(path, true, Some("exes"), Ok(m))) == None
    ensures Report(Entry(path, true, None, Ok(m))) == None
    ensures Report(Entry(path, true, Some("exe"), Err(err))) == None
  {
    IsExeExamples();
  }

  /** A manifest with only one of the two elements is not reported. */
  lemma OneElementNotReported(path: string)
    ensures Report(Entry(path, true, Some("exe"), Ok("<autoElevate>true</autoElevate>"))) == None
    ensures Report(Entry(path, true, Some("exe"),
      Ok("<requestedExecutionLevel level=" + "\"requireAdministrator\"" + "/>"))) == None
  {
    AutoElevateAloneIsNotAdministrator();
    AdministratorAloneIsNotAutoElevate();
  }

  /** The plain spellings of the two elements match their patterns. */
  lemma PlainElementsMatch()
    ensures IsMatch(AutoElevate, "<autoElevate>true</autoElevate>")
    ensures IsMatch(RequireAdministrator, "<requestedExecutionLevel level=" + "\"requireAdministrator\"")
  {
    var runs := ["", "", "", "", "", "", ""];
    assert forall n :: 0 <= n < 7 ==> AllIn(Space, runs[n]);
    AutoElevateToleratesWhitespace(runs);
    AutoElevatePlainText();
    RequireAdministratorExamples();
    RequireAdministratorPlainText();
  }

  /** A typical elevating manifest, with the requestedExecutionLevel element
      inside `trustInfo` before the autoElevate element, is reported. */
  lemma ElevatingManifestReported(path: string)
    ensures Report(Entry(path, true, Some("exe"), Ok(
      "<assembly><trustInfo><security>"
      + ("<requestedExecutionLevel level=" + "\"requireAdministrator\"")
      + "/></security></trustInfo>"
      + "<autoElevate>true</autoElevate>"
      + "</assembly>"))) == Some(FoundPrefix + path)
  {
    PlainElementsMatch();
    BothElementsElevate("<assembly><trustInfo><security>", "<autoElevate>true</autoElevate>",
      "/></security></trustInfo>", "<requestedExecutionLevel level=" + "\"requireAdministrator\"", "</assembly>");
    IsExeExamples();
  }

  /** The same manifest asking only for `asInvoker` is not reported, although
      it keeps the autoElevate element. */
  lemma AsInvokerManifestNotReported(path: string)
    ensures Report(Entry(path, true, Some("exe"), Ok(
      "<assembly><trustInfo><security>"
      + ("<requestedExecutionLevel level=" + "\"asInvoker\"")
      + "/></security></trustInfo>"
      + "<autoElevate>true</autoElevate>"
      + "</assembly>"))) == None
  {
    AsInvokerManifestText();
    RequireAdministratorLacksValue(
      "<assembly><trustInfo><security>"
      + ("<requestedExecutionLevel level=" + "\"asInvoker\"")
      + "/></security></trustInfo>"
      + "<autoElevate>true</autoElevate>"
      + "</assembly>");
  }

  /** No `"` of the asInvoker manifest is followed by `r`. */
  lemma AsInvokerManifestText()
    ensures NoPair("<assembly><trustInfo><security>"
      + ("<requestedExecutionLevel level=" + "\"asInvoker\"")
      + "/></security></trustInfo>"
      + "<autoElevate>true</autoElevate>"
      + "</assembly>", '"', 'r')
  {
    AsInvokerManifestHead();
    AsInvokerManifestTail();
    QuotedValueOnly("<assembly><trustInfo><security>", "<requestedExecutionLevel level=", "\"asInvoker\"",
      "/></security></trustInfo>", "<autoElevate>true</autoElevate>", "</assembly>");
  }

  lemma AsInvokerManifestHead()
    ensures '"' !in "<assembly><trustInfo><security>" && '"' !in "<requestedExecutionLevel level="
    ensures NoPair("\"asInvoker\"", '"', 'r')
  {
  }

  lemma AsInvokerManifestTail()
    ensures "/></security></trustInfo>"[0] == '/' && '"' !in "/></security></trustInfo>"
    ensures '"' !in "<autoElevate>true</autoElevate>" && '"' !in "</assembly>"
  {
  }

  /** Text whose only `"` characters lie in `c`, where none is followed by
      `r`, and where a non-empty `d` not starting with `r` follows. */
  lemma QuotedValueOnly(a: string, b: string, c: string, d: string, e: string, f: string)
    requires '"' !in a && '"' !in b && '"' !in d && '"' !in e && '"' !in f
    requires NoPair(c, '"', 'r') && d != [] && d[0] != 'r'
    ensures NoPair(a + (b + c) + d + e + f, '"', 'r')
  {
    QuoteFree(a);
    QuoteFree(b);
    QuoteFree(d);
    QuoteFree(e);
    QuoteFree(f);
    if a != [] {
      assert a[|a| - 1] in a;
    }
    if b != [] {
      assert b[|b| - 1] in b;
    }
    NoPairConcat(b, c, '"', 'r');
    NoPairConcat(a, b + c, '"', 'r');
    NoPairConcat(a + (b + c), d, '"', 'r');
    var x := a + (b + c) + d;
    assert x[|x| - 1] == d[|d| - 1] && d[|d| - 1] in d;
    NoPairConcat(x, e, '"', 'r');
    var y := x + e;
    assert y[|y| - 1] == (if e == [] then d[|d| - 1] else e[|e| - 1]);
    if e != [] {
      assert e[|e| - 1] in e;
    }
    NoPairConcat(y, f, '"', 'r');
  }

  /** A text without `"` has no `"` followed by anything. */
  lemma QuoteFree(s: string)
    requires '"' !in s
    ensures NoPair(s, '"', 'r')
  {
  }
}
