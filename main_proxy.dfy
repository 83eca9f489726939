/** The HTTP-only variant (main.go): the update check is answered with the
    apk files of the working directory followed by the URLs listed in
    `apps.txt`, cut or padded by a counter; requests addressed to the
    pseudo-host `PROXY` are served from disk and everything else is
    forwarded. */
module MainProxy {
  import opened Wrappers
  import opened Text
  import opened Catalog

  /** The URL prefix of a local apk: the file server behind host `PROXY`. */
  const ApkBase: string := "http://PROXY/"
  const FileServerHost: string := "PROXY"

  // ---------------------------------------------------------------------
  // getAppUrlsFromApks

  /** The catalog entries for the apk files of the listing, in listing order. */
  method AppUrlsFromApks(listing: Option<seq<FileInfo>>, quote: string -> string)
    returns (result: seq<AppUrl>)
    ensures result == ListedApkEntries(ApkBase, quote, listing)
  {
    result := [];
    if listing.None? {
      return;
    }
    var files := listing.value;
    for i := 0 to |files|
      invariant result == ApkEntries(ApkBase, quote, files[..i])
    {
      assert files[..i + 1] == files[..i] + [files[i]];
      ApkEntriesSnoc(ApkBase, quote, files[..i], files[i]);
      var filename := Lower(files[i].name);
      if files[i].isDir || !HasSuffix(filename, ".apk") {
        continue;
      }
      result := result + [NewAppUrl(ApkBase + quote(filename))];
    }
    assert files[..|files|] == files;
  }

  // ---------------------------------------------------------------------
  // getAppUrlsFromFile

  /** What a line of `apps.txt` contributes: its trimmed text, unless that
      is empty or a `#` comment. */
  function KeptLine(line: string): (kept: seq<string>)
    ensures |kept| <= 1
    ensures kept == [] <==> TrimSpace(line) == "" || HasPrefix(TrimSpace(line), "#")
    ensures kept != [] ==> kept[0] == TrimSpace(line)
  {
    var t := TrimSpace(line);
    if t != "" && !HasPrefix(t, "#") then [t] else []
  }

  /** The kept lines of a sequence of lines, in order. */
  function KeptLines(lines: seq<string>): (kept: seq<string>)
    ensures |kept| <= |lines|
  {
    if lines == [] then [] else KeptLine(lines[0]) + KeptLines(lines[1..])
  }

  /** The manifest URLs of `apps.txt`: the kept lines, in file order. */
  function ManifestUrls(content: string): seq<string> {
    KeptLines(Lines(content))
  }

  /** What one line handed over by ReadString contributes to the catalog:
      a descriptor for its trimmed text, unless that is empty or a comment. */
  function LineEntries(raw: string): seq<AppUrl> {
    var line := TrimSpace(raw);
    if line != "" && !HasPrefix(line, "#") then [NewAppUrl(line)] else []
  }

  /** The catalog entries `apps.txt` yields, line by line as ReadString
      hands the lines over. */
  function ManifestEntries(content: string): (entries: seq<AppUrl>)
    ensures |entries| <= |content|
    decreases |content|
  {
    var read := ReadString(content);
    LineEntries(read.line) + (if read.eof then [] else ManifestEntries(content[|read.line|..]))
  }

  /** A file that cannot be opened contributes nothing. */
  function FileEntries(manifest: Option<string>): seq<AppUrl> {
    match manifest
    case None => []
    case Some(content) => ManifestEntries(content)
  }

  /** Reads `apps.txt` line by line, as bufio.Reader.ReadString('\n') hands
      the lines over, until io.EOF. */
  method AppUrlsFromFile(manifest: Option<string>) returns (result: seq<AppUrl>)
    ensures result == FileEntries(manifest)
  {
    result := [];
    if manifest.None? {
      return;
    }
    var rest := manifest.value;
    while true
      invariant result + ManifestEntries(rest) == ManifestEntries(manifest.value)
      decreases |rest|
    {
      var read := ReadString(rest);
      ghost var prev := result;
      var line := TrimSpace(read.line);
      if line != "" && !HasPrefix(line, "#") {
        result := result + [NewAppUrl(line)];
      }
      assert result == prev + LineEntries(read.line);
      if read.eof {
        break;
      }
      ghost var unread := rest;
      rest := rest[|read.line|..];
      assert ManifestEntries(unread) == LineEntries(read.line) + ManifestEntries(rest);
      AppendAssoc(prev, LineEntries(read.line), ManifestEntries(rest));
    }
  }

  lemma AppendAssoc<T>(a: seq<T>, b: seq<T>, c: seq<T>)
    ensures (a + b) + c == a + (b + c)
  {
  }

  /** The entries read are the populated descriptors of the manifest URLs:
      one per kept line, in file order, nothing else. */
  lemma {:induction false} ManifestEntriesAreUrls(content: string)
    ensures ManifestEntries(content) == Populated(ManifestUrls(content))
    decreases |content|
  {
    hide TrimSpace, IndexOf;  // only the lemmas about them are needed
    if '\n' in content {
      var k := LinesFirst(content);
      var line, rest := content[..k + 1], content[k + 1..];
      assert ManifestEntries(content) == LineEntries(line) + ManifestEntries(rest);
      ManifestEntriesAreUrls(rest);
      KeptLinesCons(line, Lines(rest));
      PopulatedAppend(KeptLine(line), ManifestUrls(rest));
    } else {
      LinesNoNewline(content);
      assert ManifestEntries(content) == LineEntries(content);
      KeptLinesCons(content, []);
    }
  }

  lemma KeptLinesCons(line: string, lines: seq<string>)
    ensures KeptLines([line] + lines) == KeptLine(line) + KeptLines(lines)
  {
    assert ([line] + lines)[1..] == lines;
  }

  lemma {:induction false} KeptLinesAppend(a: seq<string>, b: seq<string>)
    ensures KeptLines(a + b) == KeptLines(a) + KeptLines(b)
  {
    if a == [] {
      assert a + b == b;
    } else {
      assert a + b == [a[0]] + (a[1..] + b);
      KeptLinesCons(a[0], a[1..] + b);
      KeptLinesAppend(a[1..], b);
      AppendAssoc(KeptLine(a[0]), KeptLines(a[1..]), KeptLines(b));
    }
  }

  /** Every URL taken from `apps.txt` is non-empty, is no comment and has no
      white space left at either end. */
  lemma {:induction false} KeptLinesClean(lines: seq<string>)
    ensures forall u | u in KeptLines(lines) :: u != "" && !HasPrefix(u, "#") && TrimSpace(u) == u
  {
    hide TrimSpace;  // TrimSpaceIdempotent says all that is needed
    if lines != [] {
      KeptLinesClean(lines[1..]);
      TrimSpaceIdempotent(lines[0]);
    }
  }

  /** The last line of `apps.txt` counts even without a trailing newline:
      text appended after a complete line contributes as one more line. */
  lemma ManifestLastLine(a: string, b: string)
    requires a == [] || a[|a| - 1] == '\n'
    requires '\n' !in b
    ensures ManifestUrls(a + b) == ManifestUrls(a) + KeptLine(b)
  {
    var ls := Lines(a);
    var init := ls[..|ls| - 1];
    if a == [] {
      LinesEmpty();
    } else {
      LinesLastEmpty(a);
    }
    assert ls == init + [[]];
    LinesAppend(a, b);
    LinesNoNewline(b);
    assert Lines(a + b) == init + [b];
    KeptLinesSnoc(init, []);
    KeptLinesSnoc(init, b);
    assert KeptLine([]) == [] by {
      assert TrimSpace([]) == [];
    }
  }

  lemma KeptLinesSnoc(lines: seq<string>, line: string)
    ensures KeptLines(lines + [line]) == KeptLines(lines) + KeptLine(line)
  {
    KeptLinesAppend(lines, [line]);
    KeptLinesCons(line, []);
  }

  // ---------------------------------------------------------------------
  // getAppUrls

  /** The catalog main.go returns for `count`, over the apk entries followed
      by the manifest entries: a positive count cuts the list there or pads
      it with placeholders up to there; a count of zero or less is never
      reached by the counter, so every entry is returned and none is added. */
  function Truncate(count: int, entries: seq<AppUrl>): (r: seq<AppUrl>)
    ensures count >= 1 ==> |r| == count
    ensures count <= 0 ==> r == entries
  {
    if count <= 0 then entries
    else if count <= |entries| then entries[..count]
    else entries + Placeholders(count - |entries|)
  }

  /** The entries main.go draws from, in the order it draws them. */
  function Entries(listing: Option<seq<FileInfo>>, manifest: Option<string>, quote: string -> string): seq<AppUrl> {
    ListedApkEntries(ApkBase, quote, listing) + FileEntries(manifest)
  }

  /** getAppUrls: a counter `c` counts the entries appended; the function
      returns as soon as `c` reaches `count`, and pads while `c < count`. */
  method GetAppUrls(count: int, listing: Option<seq<FileInfo>>, manifest: Option<string>, quote: string -> string)
    returns (result: seq<AppUrl>)
    ensures result == Truncate(count, Entries(listing, manifest, quote))
  {
    // The proof needs only what the readers return, not how the entries
    // are computed: `hide` keeps the solver from unfolding the recursive
    // definitions, which would make this proof too costly. The other
    // `hide` statements of the model are there for the same reason.
    hide ApkEntries, ManifestEntries;
    var c, reached;
    var apks := AppUrlsFromApks(listing, quote);
    result, c, reached := AppendCounted(count, [], 0, apks);
    if reached {
      TruncateWithin(count, apks, FileEntries(manifest));
      return;
    }
    var files := AppUrlsFromFile(manifest);
    result, c, reached := AppendCounted(count, result, c, files);
    if reached {
      TruncateWithin(count, apks, files);
      return;
    }
    result := Pad(count, result, c);
    TruncateBeyond(count, apks + files);
  }

  /** The last loop of getAppUrls: placeholders are appended while the
      counter `c` is below `count`. */
  method Pad(count: int, result: seq<AppUrl>, c: int) returns (r: seq<AppUrl>)
    ensures count <= c ==> r == result
    ensures c < count ==> r == result + Placeholders(count - c)
  {
    r := result;
    var k := c;
    while k < count
      invariant c <= k && (k <= count || k == c)
      invariant r == result + Placeholders(k - c)
    {
      PlaceholdersSucc(k - c);
      r := r + [NewAppUrlNoUpdate()];
      k := k + 1;
    }
    if count <= c {
      assert r == result + [];
    }
  }

  /** One of the two identical loops of getAppUrls: `xs` is appended to
      `result` one entry at a time, each counted by `c`, and the loop stops
      (`reached`) right after the entry that makes `c` equal `count`. */
  method AppendCounted(count: int, result: seq<AppUrl>, c: int, xs: seq<AppUrl>)
    returns (r: seq<AppUrl>, c': int, reached: bool)
    requires c == |result| && (count <= 0 || c < count)
    ensures c' == |r|
    ensures reached ==> 1 <= count <= |result| + |xs| && r == (result + xs)[..count]
    ensures !reached ==> r == result + xs && (count <= 0 || c' < count)
  {
    r, c', reached := result, c, false;
    for i := 0 to |xs|
      invariant r == result + xs[..i] && c' == |r|
      invariant count <= 0 || c' < count
    {
      assert xs[..i + 1] == xs[..i] + [xs[i]];
      r := r + [xs[i]];
      c' := c' + 1;
      if c' == count {
        assert r == (result + xs)[..count];
        reached := true;
        return;
      }
    }
    assert xs[..|xs|] == xs;
  }

  /** A positive count within the entries cuts there. */
  lemma TruncateWithin(count: int, apks: seq<AppUrl>, files: seq<AppUrl>)
    requires 1 <= count
    ensures count <= |apks| ==> Truncate(count, apks + files) == apks[..count]
    ensures |apks| < count <= |apks| + |files| ==>
              Truncate(count, apks + files) == (apks + files[..count - |apks|])
  {
    if count <= |apks| {
      assert (apks + files)[..count] == apks[..count];
    } else if count <= |apks| + |files| {
      assert (apks + files)[..count] == apks + files[..count - |apks|];
    }
  }

  /** When every entry is taken without the counter reaching `count`, the
      result is the entries, padded up to a positive count. */
  lemma TruncateBeyond(count: int, entries: seq<AppUrl>)
    requires count <= 0 || |entries| < count
    ensures count <= 0 ==> Truncate(count, entries) == entries
    ensures count > 0 ==> Truncate(count, entries) == entries + Placeholders(count - |entries|)
  {
  }

  /** The counter's promise: a positive count yields exactly `count`
      descriptors, the first `count` of the entries followed by an endless
      run of placeholders; a count of zero or less yields the entries as
      they are. Hence apk entries come before manifest entries, which come
      before placeholders. */
  lemma TruncateShape(count: int, entries: seq<AppUrl>)
    ensures count <= 0 ==> Truncate(count, entries) == entries
    ensures count >= 1 ==> |Truncate(count, entries)| == count
    ensures count >= 1 ==> forall i | 0 <= i < count ::
              Truncate(count, entries)[i] == if i < |entries| then entries[i] else NewAppUrlNoUpdate()
  {
  }

  /** With a positive count no more than the number of populated entries,
      every descriptor returned is populated. */
  lemma TruncateAllPopulated(count: int, urls: seq<string>)
    requires 1 <= count <= |urls|
    ensures forall a | a in Truncate(count, Populated(urls)) :: a.isUpdate
  {
    TruncateShape(count, Populated(urls));
    forall a | a in Truncate(count, Populated(urls)) ensures a.isUpdate {
      var i :| 0 <= i < count && Truncate(count, Populated(urls))[i] == a;
      assert a == NewAppUrl(urls[i]);
    }
  }

  /** A directory holding `a.apk` and `B.APK` and an `apps.txt` holding the
      single line `http://x/y`. ioutil.ReadDir lists by name, byte by byte,
      so `B.APK` comes first. Four requested packages get both apks (the
      first under its lowercased name), the manifest URL and one
      placeholder; one requested package gets `b.apk` only. */
  lemma ExampleCatalog(quote: string -> string)
    ensures var listing := Some([FileInfo("B.APK", false), FileInfo("a.apk", false)]);
      var manifest := Some("http://x/y");
      && Truncate(4, Entries(listing, manifest, quote))
         == [NewAppUrl(ApkBase + quote("b.apk")), NewAppUrl(ApkBase + quote("a.apk")),
             NewAppUrl("http://x/y"), NewAppUrlNoUpdate()]
      && Truncate(1, Entries(listing, manifest, quote)) == [NewAppUrl(ApkBase + quote("b.apk"))]
  {
    var listing := Some([FileInfo("B.APK", false), FileInfo("a.apk", false)]);
    var apkB, apkA := NewAppUrl(ApkBase + quote("b.apk")), NewAppUrl(ApkBase + quote("a.apk"));
    hide ListedApkEntries, FileEntries;  // the two helper lemmas evaluate them
    ExampleApks(quote);
    ExampleManifest();
    var entries := [apkB, apkA, NewAppUrl("http://x/y")];
    assert Entries(listing, Some("http://x/y"), quote) == entries;
    assert Placeholders(1) == [NewAppUrlNoUpdate()];
    assert entries[..1] == [apkB];
  }

  lemma ExampleApks(quote: string -> string)
    ensures ListedApkEntries(ApkBase, quote, Some([FileInfo("B.APK", false), FileInfo("a.apk", false)]))
         == [NewAppUrl(ApkBase + quote("b.apk")), NewAppUrl(ApkBase + quote("a.apk"))]
  {
    var files := [FileInfo("B.APK", false), FileInfo("a.apk", false)];
    assert Lower("B.APK") == "b.apk";
    assert Lower("a.apk") == "a.apk";
    assert ApkEntries(ApkBase, quote, files[2..]) == [];
    assert ApkEntries(ApkBase, quote, files[1..])
        == [NewAppUrl(ApkBase + quote("a.apk"))] + ApkEntries(ApkBase, quote, files[2..]);
  }

  lemma ExampleManifest()
    ensures FileEntries(Some("http://x/y")) == [NewAppUrl("http://x/y")]
  {
    hide ManifestEntries, TrimSpace, ReadString, Lines;  // evaluated by the lemmas below
    var url := "http://x/y";
    LinesNoNewline(url);
    TrimSpaceNoop(url);
    ManifestEntriesLastLine(url);
  }

  /** Input without a newline is one line, read together with io.EOF. */
  lemma ManifestEntriesLastLine(content: string)
    requires '\n' !in content
    ensures ManifestEntries(content) == LineEntries(content)
  {
    LinesNoNewline(content);
  }

  // ---------------------------------------------------------------------
  // NewProxy's update-check handler

  /** The intercepted update check: the requested count is read from the
      form and the catalog for it is returned as a 200 HTML response. */
  method HandleUpdateCheck(form: map<string, seq<string>>, listing: Option<seq<FileInfo>>,
                           manifest: Option<string>, quote: string -> string)
    returns (response: Response)
    requires "applist" in form && |form["applist"]| > 0
    ensures response == UpdateResponse(Truncate(RequestedCount(form), Entries(listing, manifest, quote)))
  {
    var appCount := Count(form["applist"][0], '{');
    var appURL := GetAppUrls(appCount, listing, manifest, quote);
    response := UpdateResponse(appURL);
  }

  // ---------------------------------------------------------------------
  // muxHandler.ServeHTTP

  /** The handler a request is delegated to. */
  datatype Handler = FileServer | ProxyServer

  /** Requests for host `PROXY` go to the file server, all others to the
      forward proxy (which also intercepts the update check). */
  function Dispatch(host: string): (h: Handler)
    ensures h == FileServer <==> host == FileServerHost
    ensures h == ProxyServer <==> host != FileServerHost
  {
    if host == FileServerHost then FileServer else ProxyServer
  }

  /** The apk URLs main.go hands out point at host `PROXY`, which is
      exactly the host this dispatcher sends to the file server. */
  lemma {:induction false} LocalApksServedLocally(quote: string -> string, files: seq<FileInfo>)
    ensures forall a | a in ApkEntries(ApkBase, quote, files) ::
              HasPrefix(a.url, "http://" + FileServerHost + "/")
    ensures Dispatch(FileServerHost) == FileServer
  {
    if files != [] {
      LocalApksServedLocally(quote, files[1..]);
    }
  }
}
