/** The update catalog that both program variants return to a device: the
    package descriptor (`AppUrl`), the response body (`AppResult`), the apk
    directory filter and the requested-count extraction they share. */
module Catalog {
  import opened Wrappers
  import opened Text

  /** The fixed metadata of the one voice-assistant package being served. */
  const AppName: string := "\U{8BED}\U{97F3}\U{52A9}\U{624B}core"
  const FileName: string := "aiCore_YueMe.apk"
  const Md5: string := "1efd99d6ee5d010f369c9a9b83752102"
  const PkgName: string := "com.keylab.speech.core.yueme"
  const Version: string := "3.02.008"

  /** "Update information fetched successfully". */
  const SuccessDescription: string := "\U{6210}\U{529F}\U{83B7}\U{53D6}\U{5347}\U{7EA7}\U{4FE1}\U{606F}"
  const ContentType: string := "text/html;charset=utf-8"
  const StatusOK: int := 200

  /** One package descriptor of the catalog. */
  datatype AppUrl = AppUrl(
    appName: string,
    fileName: string,
    isUpdate: bool,
    md5: string,
    pkgName: string,
    url: string,
    version: string)

  /** The `result` object of the response body. */
  datatype AppResult = AppResult(code: int, description: string, appURL: seq<AppUrl>)

  /** What the HTTP handler hands back: status, content type, and the body,
      the one-element JSON array `[{"result": AppResult}]`. */
  datatype Response = Response(status: int, contentType: string, body: seq<AppResult>)

  /** One entry of a directory listing. */
  datatype FileInfo = FileInfo(name: string, isDir: bool)

  /** A populated descriptor: an update is available at `url`. */
  function NewAppUrl(url: string): (a: AppUrl)
    ensures a.isUpdate && a.url == url
    ensures a.appName == AppName && a.fileName == FileName && a.md5 == Md5
    ensures a.pkgName == PkgName && a.version == Version
  {
    AppUrl(AppName, FileName, true, Md5, PkgName, url, Version)
  }

  /** A placeholder descriptor: "no update"; the fields Go leaves at their
      zero value are empty. */
  function NewAppUrlNoUpdate(): (a: AppUrl)
    ensures !a.isUpdate && a.url == ""
    ensures a.appName == "" && a.fileName == "" && a.md5 == ""
    ensures a.pkgName == PkgName && a.version == Version
  {
    AppUrl("", "", false, "", PkgName, "", Version)
  }

  /** Populated descriptors are told apart from placeholders by `isUpdate`
      alone, name the same package, and differ from each other exactly when
      their URLs do. */
  lemma DescriptorKinds(u: string, v: string)
    ensures NewAppUrl(u) != NewAppUrlNoUpdate()
    ensures NewAppUrl(u).pkgName == NewAppUrlNoUpdate().pkgName
    ensures NewAppUrl(u).version == NewAppUrlNoUpdate().version
    ensures NewAppUrl(u) == NewAppUrl(v) <==> u == v
  {
  }

  /** The populated descriptors for a sequence of URLs, in order. */
  function Populated(urls: seq<string>): (r: seq<AppUrl>)
    ensures |r| == |urls|
    ensures forall i | 0 <= i < |urls| :: r[i] == NewAppUrl(urls[i])
  {
    seq(|urls|, i requires 0 <= i < |urls| => NewAppUrl(urls[i]))
  }

  lemma PopulatedAppend(a: seq<string>, b: seq<string>)
    ensures Populated(a + b) == Populated(a) + Populated(b)
  {
  }

  /** `n` placeholder descriptors. */
  function Placeholders(n: nat): (r: seq<AppUrl>)
    ensures |r| == n
    ensures forall i | 0 <= i < n :: r[i] == NewAppUrlNoUpdate()
  {
    seq(n, _ => NewAppUrlNoUpdate())
  }

  lemma PlaceholdersSucc(n: nat)
    ensures Placeholders(n + 1) == Placeholders(n) + [NewAppUrlNoUpdate()]
  {
  }

  /** The apk filter: a listing entry is served when it is not a directory
      and its lowercased name ends in `.apk`. */
  predicate IsApk(f: FileInfo) {
    !f.isDir && HasSuffix(Lower(f.name), ".apk")
  }

  /** The filter is a case-insensitive test of the extension: an entry is an
      apk exactly when it is a file whose name ends in `.apk` in any mix of
      upper and lower case. */
  lemma IsApkAnyCase(f: FileInfo)
    ensures IsApk(f) <==>
      var n := |f.name|;
      && !f.isDir && n >= 4 && f.name[n - 4] == '.'
      && f.name[n - 3] in "aA" && f.name[n - 2] in "pP" && f.name[n - 1] in "kK"
  {
    var n, t := |f.name|, Lower(f.name);
    if n >= 4 {
      assert t[n - 4..] == [t[n - 4], t[n - 3], t[n - 2], t[n - 1]];
    }
  }

  /** The lowercased names of the listing's apk entries, in listing order. */
  function ApkNames(files: seq<FileInfo>): (names: seq<string>)
    ensures |names| <= |files|
    ensures forall i | 0 <= i < |names| :: HasSuffix(names[i], ".apk")
  {
    if files == [] then []
    else
      (if IsApk(files[0]) then [Lower(files[0].name)] else []) + ApkNames(files[1..])
  }

  /** The filter works entry by entry: the names of a concatenated listing
      are the names of its parts, in the same order. */
  lemma {:induction false} ApkNamesAppend(a: seq<FileInfo>, b: seq<FileInfo>)
    ensures ApkNames(a + b) == ApkNames(a) + ApkNames(b)
  {
    if a == [] {
      assert a + b == b;
    } else {
      assert (a + b)[1..] == a[1..] + b;
      ApkNamesAppend(a[1..], b);
    }
  }

  /** A lowercased name is listed exactly when some apk entry of the
      listing has it. */
  lemma {:induction false} ApkNamesMembers(files: seq<FileInfo>, n: string)
    ensures n in ApkNames(files) <==> exists f :: f in files && IsApk(f) && Lower(f.name) == n
  {
    if files != [] {
      ApkNamesMembers(files[1..], n);
      assert forall f :: f in files <==> f == files[0] || f in files[1..];
    }
  }

  /** The download URLs of the apk names: `base` followed by the escaped
      name (`quote` is net/url's path escaping, left abstract). */
  function ApkUrls(base: string, quote: string -> string, names: seq<string>): (urls: seq<string>)
    ensures |urls| == |names|
    ensures forall i | 0 <= i < |names| :: urls[i] == base + quote(names[i])
  {
    seq(|names|, i requires 0 <= i < |names| => base + quote(names[i]))
  }

  lemma ApkUrlsAppend(base: string, quote: string -> string, a: seq<string>, b: seq<string>)
    ensures ApkUrls(base, quote, a + b) == ApkUrls(base, quote, a) + ApkUrls(base, quote, b)
  {
  }

  /** The catalog entries for the apk files of a listing, one per apk
      entry in listing order, each pointing at `base` + the escaped
      lowercased name. */
  function ApkEntries(base: string, quote: string -> string, files: seq<FileInfo>): (entries: seq<AppUrl>)
    ensures |entries| <= |files|
  {
    if files == [] then []
    else
      (if IsApk(files[0]) then [NewAppUrl(base + quote(Lower(files[0].name)))] else [])
      + ApkEntries(base, quote, files[1..])
  }

  /** The result of ioutil.ReadDir: a failed read contributes nothing. */
  function ListedApkEntries(base: string, quote: string -> string, listing: Option<seq<FileInfo>>): seq<AppUrl> {
    match listing
    case None => []
    case Some(files) => ApkEntries(base, quote, files)
  }

  /** Appending one more listing entry appends its entry, if it is an apk. */
  lemma {:induction false} ApkEntriesSnoc(base: string, quote: string -> string, files: seq<FileInfo>, f: FileInfo)
    ensures ApkEntries(base, quote, files + [f])
         == ApkEntries(base, quote, files) + (if IsApk(f) then [NewAppUrl(base + quote(Lower(f.name)))] else [])
  {
    if files == [] {
      assert files + [f] == [f];
    } else {
      assert (files + [f])[1..] == files[1..] + [f];
      ApkEntriesSnoc(base, quote, files[1..], f);
    }
  }

  /** The entries are exactly the populated descriptors of the apk names'
      URLs: one per apk entry, in listing order, nothing else. */
  lemma {:induction false} ApkEntriesAreApkUrls(base: string, quote: string -> string, files: seq<FileInfo>)
    ensures ApkEntries(base, quote, files) == Populated(ApkUrls(base, quote, ApkNames(files)))
  {
    if files != [] {
      ApkEntriesAreApkUrls(base, quote, files[1..]);
      var head := if IsApk(files[0]) then [Lower(files[0].name)] else [];
      ApkUrlsAppend(base, quote, head, ApkNames(files[1..]));
      PopulatedAppend(ApkUrls(base, quote, head), ApkUrls(base, quote, ApkNames(files[1..])));
    }
  }

  /** The number of packages the device asks about: the number of `{` in
      the first `applist` form value. A request without one makes the source
      index an empty slice and panic, so callers must supply it. */
  function RequestedCount(form: map<string, seq<string>>): (n: nat)
    requires "applist" in form && |form["applist"]| > 0
    ensures n == multiset(form["applist"][0])['{']
    ensures n <= |form["applist"][0]|
  {
    Count(form["applist"][0], '{')
  }

  /** `applist={}{}` asks about two packages. */
  lemma RequestedCountExample()
    ensures RequestedCount(map["applist" := ["{}{}"]]) == 2
  {
    assert "{}{}" == ['{', '}', '{', '}'];
  }

  /** The response to an intercepted update check: 200, the HTML content
      type the device expects, and one result with code 0 carrying the
      descriptors in the given order. */
  function UpdateResponse(appURL: seq<AppUrl>): (r: Response)
    ensures r.status == StatusOK && r.contentType == ContentType
    ensures |r.body| == 1 && r.body[0].code == 0 && r.body[0].description == SuccessDescription
    ensures r.body[0].appURL == appURL
  {
    Response(StatusOK, ContentType, [AppResult(0, SuccessDescription, appURL)])
  }
}
