# E900-S-proxy: the interception logic, modelled in Dafny

E900-S-proxy impersonates the update server of a set-top box. When the box
asks `appStoreRrc.cnitv.net:8090/tv/updater2` whether its packages have
updates, the program answers with a catalog of package descriptors. The
descriptors point at apk files the program serves itself, and at URLs
listed in `apps.txt`. Every other request is forwarded untouched. The
program comes in two variants, and this project models the decision logic
of both:

- `main.go` (module `MainProxy`) is an HTTP proxy.
  - The update check is answered with the apks of the working directory,
    then the manifest URLs.
  - The list is cut at, or padded up to, the number of packages the box
    asked about.
  - Requests to the pseudo-host `PROXY` are served from disk.
- `fakeServer.go` (module `FakeServer`) also answers DNS.
  - The update host resolves to the machine's own address.
  - Apks are served under `/_apks/` on that host.
  - The catalog is the apks padded with placeholders and is never cut.
  - Other HTTP requests get an absolute URL and are forwarded.
  - Other DNS queries are relayed upstream.

The modules:

- `Catalog` holds what both variants share:
  - the descriptor (`AppUrl`) with its populated and placeholder forms;
  - the apk directory filter;
  - the brace count that gives the requested number of packages;
  - the response shape.
- `Text` models the pieces of Go's `strings` package and of
  `bufio.Reader.ReadString('\n')` that the logic relies on:
  - `ToLower`, `Count`, `TrimSpace`, `HasPrefix` and `HasSuffix`;
  - reading line by line.
- `Wrappers` holds `Option`. `None` stands for a Go call that returned an
  error.

The environment becomes parameters:

- The directory listing is `Option<seq<FileInfo>>`.
- The contents of `apps.txt` are `Option<string>`.
- URL path escaping (`quote`) is an uninterpreted `string -> string`.
- The upstream DNS round trip is an `Exchange` outcome.
- The probed local socket address is `Option<string>`.

The four functions that work by appending in a loop are methods, each
proved against a specification function:

- main.go's `getAppUrls`, `getAppUrlsFromApks` and `getAppUrlsFromFile`;
- fakeServer.go's `getAppUrls`.

`getAppUrls` in main.go repeats the same counted append loop twice. The
model writes that loop once, as `MainProxy.AppendCounted`, and calls it for
the apk entries and then for the manifest entries. Its padding loop is
`MainProxy.Pad`. fakeServer.go's `ServeHTTP` rewrites the request URL in
place, so the request and its URL are classes that the method modifies.

The model follows the code in these places:

- main.go cuts at `count` only once the counter reaches it. The counter is
  incremented before the test, so a count of 0 or less never cuts and never
  pads: every entry is returned.
- fakeServer.go never cuts. It returns all apks even when there are more
  than requested.
- A request without an `applist` value panics in the code. The model makes
  that value a precondition; it does not treat it as a count of zero.
- The DNS name is compared exactly with `appStoreRrc.cnitv.net.`, so no
  trailing-dot or case normalisation takes place. `UnFqdn` is defined in
  fakeServer.go but never called there.

## Model

| member | source | states |
|---|---|---|
| Catalog.NewAppUrl | main.go:79-89 | a populated descriptor has the update flag set, carries the given URL, and has the fixed name, file name, checksum, package and version |
| Catalog.NewAppUrlNoUpdate | fakeServer.go:73-79 | a placeholder has the update flag clear, an empty URL, name, file name and checksum, and the same package and version |
| Catalog.DescriptorKinds | main.go:79-98 | a populated descriptor never equals a placeholder; they share package and version; two populated descriptors are equal exactly when their URLs are |
| Catalog.Populated | main.go:171 | one populated descriptor per URL, each carrying its URL, in order |
| Catalog.Placeholders | main.go:122-124 | n placeholders and nothing else |
| Catalog.IsApkAnyCase | main.go:143 | the apk filter `IsApk` keeps an entry exactly when it is not a directory and its name ends in `.apk` in any letter case |
| Catalog.ApkNames | main.go:141-145 | at most one name per listing entry, each ending in `.apk` |
| Catalog.ApkNamesMembers | main.go:141-145 | a lowercased name is kept exactly when some listing entry that is not a directory has it and it ends in `.apk` |
| Catalog.ApkNamesAppend | main.go:141-145 | the filter works entry by entry: the kept names of a joined listing are the kept names of its parts, in order |
| Catalog.ApkUrls | main.go:147 | each apk URL is the base followed by the escaped lowercased name |
| Catalog.ApkEntries | main.go:141-148 | the apk entries of a listing, the reference the apk loops are proved against: at most one per listing entry |
| Catalog.ApkEntriesAreApkUrls | main.go:141-148 | the apk entries are exactly the populated descriptors of base + quote(name) for the kept names, in listing order |
| Catalog.ApkEntriesSnoc | main.go:141-148 | one more listing entry appends its descriptor when it is an apk, and nothing otherwise |
| Catalog.RequestedCount | main.go:38-39 | the requested count is the number of `{` in the first `applist` value, which must exist |
| Catalog.RequestedCountExample | fakeServer.go:42 | `applist={}{}` asks for two packages |
| Catalog.UpdateResponse | main.go:40-55 | status 200, content type `text/html;charset=utf-8`, one result with code 0, the success description and the descriptors |
| Text.Lower | main.go:142 | lowercasing keeps the length and lowercases each ASCII letter |
| Text.LowerIdempotent | main.go:142 | lowercasing twice is lowercasing once |
| Text.Count | main.go:39 | the count is the multiplicity of the character |
| Text.CountAppend | main.go:39 | counting distributes over concatenation |
| Text.IndexOf | fakeServer.go:171 | the first position of the character, or the length when it is absent |
| Text.TrimSpace | main.go:169 | trimming never lengthens a line; TrimSpaceInfix states what it removes |
| Text.TrimSpaceInfix | main.go:169 | the trimmed line is the infix left once the white space at both ends is cut: all that is cut is white space, and the result neither starts nor ends with white space |
| Text.TrimSpaceNoop | main.go:169 | a line without white space at either end is not changed |
| Text.TrimSpaceIdempotent | main.go:169 | trimming twice is trimming once |
| Text.ReadString | main.go:164 | EOF exactly when no newline is left; otherwise the line runs up to and including the first newline |
| Text.LinesConcat | main.go:163-177 | the pieces read, put back together, are the file |
| Text.LinesShape | main.go:163-177 | every piece but the last ends with its only newline; the last piece has none |
| Text.LinesCount | main.go:163-177 | there is one piece per newline, plus one |
| Text.LinesAppend | main.go:163-177 | text after a newline-terminated prefix is read on its own: the prefix's empty last piece is replaced by the pieces of the rest |
| MainProxy.AppUrlsFromApks | main.go:133-151 | the loop returns the apk entries of the listing (none when it cannot be read), with URLs under `http://PROXY/` |
| MainProxy.KeptLine | main.go:169-172 | a line is kept, trimmed, exactly when its trimmed text is neither empty nor starts with `#` |
| MainProxy.AppUrlsFromFile | main.go:153-180 | the read loop returns the manifest entries (none when the file cannot be opened) |
| MainProxy.ManifestEntries | main.go:163-177 | the entries `apps.txt` yields line by line, the reference the read loop is proved against: never more than the file has characters |
| MainProxy.ManifestEntriesAreUrls | main.go:163-177 | the entries read are the populated descriptors of the kept lines, in file order |
| MainProxy.KeptLinesClean | main.go:169-171 | every manifest URL is trimmed, non-empty and not a `#` comment |
| MainProxy.ManifestLastLine | main.go:163-176 | a last line without a trailing newline is still read as a line |
| MainProxy.Truncate | main.go:104-127 | the catalog for a count, the reference getAppUrls is proved against: exactly `count` descriptors for a positive count, the entries unchanged otherwise |
| MainProxy.GetAppUrls | main.go:104-127 | the catalog is the apk entries then the manifest entries, cut at or padded up to a positive count, and returned whole for a count of zero or less |
| MainProxy.AppendCounted | main.go:108-120 | the counted loop appends the entries in order and stops right after the entry that makes the counter equal the count |
| MainProxy.Pad | main.go:122-124 | placeholders are appended until the counter reaches the count, and none when it already has |
| MainProxy.TruncateWithin | main.go:108-119 | a count reached while taking apks cuts inside the apks; one reached while taking the manifest keeps all apks |
| MainProxy.TruncateBeyond | main.go:122-126 | once every entry is taken, a positive count is reached by placeholders |
| MainProxy.TruncateShape | main.go:104-127 | a positive count gives exactly that many descriptors, namely the entries followed by placeholders; a count of zero or less gives the entries unchanged |
| MainProxy.TruncateAllPopulated | main.go:108-113 | when at least `count` entries exist, every descriptor returned is populated |
| MainProxy.ExampleCatalog | main.go:104-177 | `B.APK` and `a.apk`, listed in ReadDir's name order, and a manifest line `http://x/y` give `b.apk`, `a.apk`, the URL and one placeholder for count 4, and only `b.apk` for count 1 |
| MainProxy.HandleUpdateCheck | main.go:37-52 | the update check answers 200 with the catalog for the brace count of `applist` |
| MainProxy.Dispatch | main.go:187-194 | host `PROXY` goes to the file server and every other host to the proxy; exactly one of the two |
| MainProxy.LocalApksServedLocally | main.go:147 | every apk URL handed out points at host `PROXY`, which the dispatcher sends to the file server |
| FakeServer.GetAppUrls | fakeServer.go:81-101 | the catalog is the apk entries under the update host's `/_apks/` URL, followed by placeholders up to the count |
| FakeServer.Padded | fakeServer.go:81-101 | the padded catalog, the reference this getAppUrls is proved against: it keeps every entry as its prefix and holds at least `count` descriptors |
| FakeServer.PaddedShape | fakeServer.go:96-98 | the catalog holds max(K, count) descriptors: the K apk entries unchanged and in order, then only placeholders |
| FakeServer.PaddedNeverCuts | fakeServer.go:81-101 | a count no larger than the number of apks cuts nothing |
| FakeServer.HandleUpdateCheck | fakeServer.go:40-55 | the update check answers 200 with the padded catalog for the brace count of `applist` |
| FakeServer.RouteOf | fakeServer.go:113-121 | a request is served statically exactly when it is for the update host and its path is under `/_apks/`; the kept path is the old one minus `/_apks` and starts with `/` |
| FakeServer.ServeHTTP | fakeServer.go:112-122 | a static request has only its path rewritten; a forwarded request gets scheme `http` and the Host header as URL host, with the path kept |
| FakeServer.ApkDownloadServedStatically | fakeServer.go:113-114 | a catalog download path `/_apks/` + name on the update host is served as `/` + name |
| FakeServer.OtherHostsForwarded | fakeServer.go:113-121 | any other host is forwarded, whatever the path |
| FakeServer.TrailingBackslashes | fakeServer.go:125 | the count is the length of the final run of backslashes |
| FakeServer.IsFqdn | fakeServer.go:125 | only a name ending in a dot is fully qualified; UnFqdnQualified and UnFqdnEscapedDot give both sides of the escaped-dot rule |
| FakeServer.UnFqdn | fakeServer.go:124-129 | a fully qualified name loses exactly its final dot; any other name is unchanged; the length shrinks by at most one |
| FakeServer.UnFqdnQualified | fakeServer.go:124-129 | a name qualified with an unescaped dot is unqualified back to itself |
| FakeServer.UnFqdnEscapedDot | fakeServer.go:124-129 | a name ending in an escaped dot is not fully qualified, and its final dot stays |
| FakeServer.SetReply | fakeServer.go:139-140 | a reply keeps the id, opcode and first question, sets the response flag and success, and has no answers |
| FakeServer.Failed | fakeServer.go:133 | a failure reply keeps the id and carries SERVFAIL and no answers |
| FakeServer.DoUDP | fakeServer.go:131-161 | every message written is either the upstream reply unchanged or a reply to the query (its id, response flag, success or SERVFAIL); a reply of its own carries answers only for the update host, namely its one spoofed A record |
| FakeServer.NoQuestionFails | fakeServer.go:132-135 | a query without questions gets SERVFAIL |
| FakeServer.SpoofedAnswer | fakeServer.go:137-151 | a query for the update host gets a successful reply with exactly one A record (INET, TTL 600, the local address) |
| FakeServer.OtherNamesRelayed | fakeServer.go:154-160 | any other query gets the upstream reply unchanged, or SERVFAIL when the round trip fails |
| FakeServer.FirstQuestionDecides | fakeServer.go:137-138 | only the first question is inspected |
| FakeServer.ExactNameMatch | fakeServer.go:138 | the update host without its final dot, or in lower case, is relayed, not spoofed |
| FakeServer.HostPart | fakeServer.go:171 | the local IP is the prefix before the first colon; it holds no colon and is all of the address when there is none |
| FakeServer.GetLocalIP | fakeServer.go:163-172 | the local IP holds no colon and starts the probed address; a failed probe gives the empty string |
| FakeServer.LocalIPExample | fakeServer.go:163-172 | `192.168.1.5:51234` gives `192.168.1.5`, and a failed probe gives the empty string |

## Left out

- The goproxy engine and its `UrlHasPrefix` matcher. Which requests reach
  the update-check handler is library matching; the handlers are modelled
  from the point where they run.
- `http.FileServer` and the relay of bytes, including its handling of `..`
  in paths: library code.
- JSON serialisation. The model builds the `AppResult` structure, not the
  bytes.
- The DNS wire format, `dns.Client.Exchange` and `ResponseWriter.WriteMsg`.
  The upstream round trip is an outcome parameter, and the written message
  is the function's result. `dns.Msg` is reduced to id, response flag,
  opcode, rcode, questions and answers. The RD and CD bits that SetReply
  also copies are not modelled.
- `net.ParseIP(localIP).To4()`. The A record carries the probed address as
  a string.
- `net.Dial` and `init`. The probed local address is an `Option<string>`,
  and `localIP` is a parameter.
- `ioutil.ReadDir`, `os.Open` and `bufio` reading.
  - A read error is `None` and contributes nothing.
  - A read error other than io.EOF in the middle of `apps.txt` is not
    modelled.
  - `ReadDir` returns its listing sorted by name; the model takes the listing
    in whatever order it is given.
- Text.Lower: only ASCII letters are lowercased. Go's `strings.ToLower`
  also lowercases other Unicode letters.
- Text: strings are sequences of Unicode scalars, not UTF-8 bytes, so
  invalid UTF-8 is not modelled.
- FakeServer.IsFqdn: the source does not pin the version of the miekg/dns
  library. `IsFqdn` is modelled on the escape-aware definition of its
  current versions: the final dot must not be escaped by an odd number of
  backslashes.
- `quote` (`url.URL.RequestURI`) is left uninterpreted: library escaping.
- Logging (`fmt.Println`), flag parsing, `ListenAndServe`, and the goroutine
  that runs the UDP server: I/O and concurrency.
- The commented-out static handler at main.go:55-74: it is dead code.
