/** The HTTP + DNS variant (fakeServer.go): the program answers DNS for the
    vendor's update host with its own address, serves apk files under
    `/_apks/` on that host, answers the update check with the local apks
    padded by placeholders, and forwards every other request. */
module FakeServer {
  import opened Wrappers
  import opened Text
  import opened Catalog

  /** The vendor update host, as the device addresses it over HTTP. */
  const ServerHost: string := "appStoreRrc.cnitv.net:8090"
  /** Where this variant serves the local apk files. */
  const StaticPrefix: string := "/_apks/"
  const ApkBase: string := "http://appStoreRrc.cnitv.net:8090/_apks/"

  // ---------------------------------------------------------------------
  // getAppUrls

  /** The catalog this variant returns: every apk entry, then placeholders
      up to `count`; nothing is ever cut. */
  function Padded(count: int, entries: seq<AppUrl>): (r: seq<AppUrl>)
    ensures |entries| <= |r| && r[..|entries|] == entries
    ensures count <= |r|
  {
    entries + Placeholders(if count > |entries| then count - |entries| else 0)
  }

  /** getAppUrls: the apk entries of the listing (none when the listing
      cannot be read), then placeholders appended while the counter,
      started at the number of entries, is below `count`. */
  method GetAppUrls(count: int, listing: Option<seq<FileInfo>>, quote: string -> string)
    returns (result: seq<AppUrl>)
    ensures result == Padded(count, ListedApkEntries(ApkBase, quote, listing))
  {
    result := [];
    if listing.Some? {
      var files := listing.value;
      for i := 0 to |files|
        invariant result == ApkEntries(ApkBase, quote, files[..i])
      {
        assert files[..i + 1] == files[..i] + [files[i]];
        ApkEntriesSnoc(ApkBase, quote, files[..i], files[i]);
        var filename := Lower(files[i].name);
        if files[i].isDir || !HasSuffix(filename, ".apk") {
          continue;
        }
        result := result + [NewAppUrl(ApkBase + quote(filename))];
      }
      assert files[..|files|] == files;
    }
    ghost var entries := result;
    var c := |result|;
    while c < count
      invariant |entries| <= c && (c <= count || c == |entries|)
      invariant result == entries + Placeholders(c - |entries|)
    {
      PlaceholdersSucc(c - |entries|);
      result := result + [NewAppUrlNoUpdate()];
      c := c + 1;
    }
  }

  /** The padded catalog has max(K, count) descriptors for K entries: the
      entries, unchanged and in order, then only placeholders. */
  lemma PaddedShape(count: int, entries: seq<AppUrl>)
    ensures |Padded(count, entries)| == if count > |entries| then count else |entries|
    ensures Padded(count, entries)[..|entries|] == entries
    ensures forall i | |entries| <= i < |Padded(count, entries)| ::
              Padded(count, entries)[i] == NewAppUrlNoUpdate()
  {
    assert Padded(count, entries)[..|entries|] == entries;
  }

  /** Unlike main.go's counter, a count below the number of apks cuts
      nothing: every apk entry is returned. */
  lemma PaddedNeverCuts(count: int, entries: seq<AppUrl>)
    requires count <= |entries|
    ensures Padded(count, entries) == entries
  {
    assert Placeholders(0) == [];
  }

  /** The intercepted update check of this variant. */
  method HandleUpdateCheck(form: map<string, seq<string>>, listing: Option<seq<FileInfo>>, quote: string -> string)
    returns (response: Response)
    requires "applist" in form && |form["applist"]| > 0
    ensures response == UpdateResponse(Padded(RequestedCount(form), ListedApkEntries(ApkBase, quote, listing)))
  {
    var appCount := Count(form["applist"][0], '{');
    var appURL := GetAppUrls(appCount, listing, quote);
    response := UpdateResponse(appURL);
  }

  // ---------------------------------------------------------------------
  // muxHandler.ServeHTTP

  /** The parts of a request URL the handler reads or rewrites. */
  class Url {
    var scheme: string
    var host: string
    var path: string

    constructor (scheme: string, host: string, path: string)
      ensures this.scheme == scheme && this.host == host && this.path == path
    {
      this.scheme, this.host, this.path := scheme, host, path;
    }
  }

  /** An inbound request: the Host header and the URL. */
  class Request {
    var host: string
    const url: Url

    constructor (host: string, url: Url)
      ensures this.host == host && this.url == url
    {
      this.host, this.url := host, url;
    }
  }

  /** Where a request is sent, and the path a static request keeps. */
  datatype Route = StaticFile(path: string) | Forward

  /** The handler a request is delegated to. */
  datatype Handler = StaticFileHandler | ProxyHandler

  /** The routing decision: a request to the update host under `/_apks/`
      is served from disk with the `/_apks` directory cut off its path;
      everything else is forwarded. */
  function RouteOf(host: string, path: string): (route: Route)
    ensures route.StaticFile? <==> host == ServerHost && HasPrefix(path, StaticPrefix)
    ensures route.StaticFile? ==> "/_apks" + route.path == path
    ensures route.StaticFile? ==> route.path != [] && route.path[0] == '/'
  {
    if host == ServerHost && HasPrefix(path, StaticPrefix) then StaticFile(path[6..]) else Forward
  }

  /** muxHandler.ServeHTTP: rewrites the request URL in place and picks
      the handler. A static request only loses its `/_apks` prefix; a
      forwarded request gets an absolute URL, scheme `http` and the host of
      its Host header, with the path kept. */
  method ServeHTTP(r: Request) returns (h: Handler)
    modifies r.url
    ensures h == StaticFileHandler <==> RouteOf(r.host, old(r.url.path)).StaticFile?
    ensures h == StaticFileHandler ==>
              r.url.path == RouteOf(r.host, old(r.url.path)).path
              && r.url.scheme == old(r.url.scheme) && r.url.host == old(r.url.host)
    ensures h == ProxyHandler ==>
              r.url.scheme == "http" && r.url.host == r.host && r.url.path == old(r.url.path)
  {
    if r.host == ServerHost && HasPrefix(r.url.path, StaticPrefix) {
      r.url.path := r.url.path[6..];
      return StaticFileHandler;
    }
    r.url.scheme := "http";
    r.url.host := r.host;
    return ProxyHandler;
  }

  /** The download URL of a catalog apk, fetched from the update host, is
      served from disk under the escaped name it was listed with. */
  lemma ApkDownloadServedStatically(name: string)
    ensures RouteOf(ServerHost, StaticPrefix + name) == StaticFile("/" + name)
  {
    assert HasPrefix(StaticPrefix + name, StaticPrefix) by {
      assert (StaticPrefix + name)[..|StaticPrefix|] == StaticPrefix;
    }
    assert (StaticPrefix + name)[6..] == "/" + name;
  }

  /** Any other host is forwarded, whatever the path. */
  lemma OtherHostsForwarded(host: string, path: string)
    requires host != ServerHost
    ensures RouteOf(host, path) == Forward
  {
  }

  // ---------------------------------------------------------------------
  // UnFqdn

  /** The number of backslashes `s` ends with. */
  function TrailingBackslashes(s: string): (n: nat)
    ensures n <= |s|
    ensures forall i | |s| - n <= i < |s| :: s[i] == '\\'
    ensures n < |s| ==> s[|s| - n - 1] != '\\'
  {
    if s != [] && s[|s| - 1] == '\\' then 1 + TrailingBackslashes(s[..|s| - 1]) else 0
  }

  /** dns.IsFqdn: the name ends with a dot that is not escaped, that is,
      one preceded by an even number of backslashes. */
  predicate IsFqdn(s: string)
    ensures IsFqdn(s) ==> s != [] && s[|s| - 1] == '.'
  {
    s != [] && s[|s| - 1] == '.' && TrailingBackslashes(s[..|s| - 1]) % 2 == 0
  }

  /** UnFqdn: the final dot of a fully qualified name is dropped; any other
      name is returned as it is. */
  function UnFqdn(s: string): (r: string)
    ensures IsFqdn(s) ==> r + "." == s
    ensures !IsFqdn(s) ==> r == s
    ensures |s| - 1 <= |r| <= |s|
  {
    if IsFqdn(s) then s[..|s| - 1] else s
  }

  /** Qualifying a name with an unescaped dot and unqualifying it again
      gives the name back. */
  lemma UnFqdnQualified(s: string)
    requires TrailingBackslashes(s) % 2 == 0
    ensures IsFqdn(s + ".")
    ensures UnFqdn(s + ".") == s
  {
    assert (s + ".")[..|s|] == s;
  }

  /** An escaped final dot is part of the name and stays. */
  lemma UnFqdnEscapedDot(s: string)
    requires TrailingBackslashes(s) % 2 == 1
    ensures !IsFqdn(s + ".")
    ensures UnFqdn(s + ".") == s + "."
  {
    assert (s + ".")[..|s|] == s;
  }

  // ---------------------------------------------------------------------
  // doUDP

  /** The spoofed DNS name: the update host, fully qualified. */
  const SpoofedName: string := "appStoreRrc.cnitv.net."
  const TypeA: nat := 1
  const ClassINET: nat := 1
  const SpoofTtl: nat := 600
  const RcodeSuccess: nat := 0
  const RcodeServerFailure: nat := 2

  datatype Question = Question(name: string, qtype: nat, qclass: nat)

  /** An A record: owner name, type, class, TTL and the address. */
  datatype RR = RR(name: string, rrtype: nat, rrclass: nat, ttl: nat, address: string)

  /** The fields of a DNS message the responder reads or writes. */
  datatype Msg = Msg(id: nat, response: bool, opcode: nat, rcode: nat,
                     question: seq<Question>, answer: seq<RR>)

  /** What the single upstream round trip produced. */
  datatype Exchange = Exchanged(reply: Msg) | ExchangeError

  /** Msg.SetReply: a reply to `req` with its id, opcode and first question,
      the response flag set, success code and no answers. */
  function SetReply(req: Msg): (m: Msg)
    ensures m.id == req.id && m.response && m.opcode == req.opcode
    ensures m.rcode == RcodeSuccess && m.answer == []
    ensures m.question == if req.question == [] then [] else [req.question[0]]
  {
    Msg(req.id, true, req.opcode, RcodeSuccess, (if req.question == [] then [] else [req.question[0]]), [])
  }

  /** dns.HandleFailed: a reply to `req` carrying SERVFAIL. */
  function Failed(req: Msg): (m: Msg)
    ensures m.rcode == RcodeServerFailure && m.id == req.id && m.response && m.answer == []
  {
    SetReply(req).(rcode := RcodeServerFailure)
  }

  /** The spoofed answer for the update host: one A record carrying the
      probed local address, class INET, TTL 600. */
  function SpoofRecord(name: string, localIP: string): RR {
    RR(name, TypeA, ClassINET, SpoofTtl, localIP)
  }

  /** doUDP: the message written back for `req`. `upstream` is the outcome
      of relaying `req` to the upstream resolver, consulted only when the
      query is relayed. */
  function DoUDP(req: Msg, localIP: string, upstream: Exchange): (m: Msg)
    ensures (upstream.Exchanged? && m == upstream.reply)
            || (m.id == req.id && m.response && (m.rcode == RcodeSuccess || m.rcode == RcodeServerFailure))
    ensures !(upstream.Exchanged? && m == upstream.reply) && m.answer != [] ==>
              req.question != [] && req.question[0].name == SpoofedName
              && m.answer == [SpoofRecord(SpoofedName, localIP)]
  {
    if |req.question| == 0 then Failed(req)
    else if req.question[0].name == SpoofedName then
      SetReply(req).(answer := [SpoofRecord(req.question[0].name, localIP)])
    else if upstream.ExchangeError? then Failed(req)
    else upstream.reply
  }

  /** A query without questions gets SERVFAIL. */
  lemma NoQuestionFails(req: Msg, localIP: string, upstream: Exchange)
    requires req.question == []
    ensures DoUDP(req, localIP, upstream).rcode == RcodeServerFailure
    ensures DoUDP(req, localIP, upstream).id == req.id
  {
  }

  /** A query for the update host, whatever upstream would say, gets a
      successful reply to it with exactly one answer: the update host's A
      record with the local address, class INET, TTL 600. */
  lemma SpoofedAnswer(req: Msg, localIP: string, upstream: Exchange)
    requires req.question != [] && req.question[0].name == SpoofedName
    ensures var w := DoUDP(req, localIP, upstream);
      && w.id == req.id && w.response && w.rcode == RcodeSuccess
      && w.question == [req.question[0]]
      && w.answer == [RR(SpoofedName, TypeA, ClassINET, 600, localIP)]
  {
  }

  /** Any other query is relayed: the upstream reply is written back as it
      is, and a failed round trip gives SERVFAIL. */
  lemma OtherNamesRelayed(req: Msg, localIP: string, upstream: Exchange)
    requires req.question != [] && req.question[0].name != SpoofedName
    ensures upstream.Exchanged? ==> DoUDP(req, localIP, upstream) == upstream.reply
    ensures upstream.ExchangeError? ==> DoUDP(req, localIP, upstream) == Failed(req)
  {
  }

  /** Only the first question decides: queries agreeing on it, id and
      opcode get the same reply. For a relayed query the reply is whatever
      upstream answered, which this lemma holds fixed; in the program that
      answer depends on the whole query, so the lemma speaks only about
      the program's own choice between spoofing, relaying and failing. */
  lemma FirstQuestionDecides(a: Msg, b: Msg, localIP: string, upstream: Exchange)
    requires a.question != [] && b.question != [] && a.question[0] == b.question[0]
    requires a.id == b.id && a.opcode == b.opcode
    ensures DoUDP(a, localIP, upstream) == DoUDP(b, localIP, upstream)
  {
  }

  /** The name is compared as written: the update host without its final
      dot, or in another letter case, is relayed, not answered. */
  lemma ExactNameMatch(localIP: string, upstream: Exchange, id: nat, opcode: nat)
    ensures var unqualified := Msg(id, false, opcode, 0, [Question(UnFqdn(SpoofedName), TypeA, ClassINET)], []);
      upstream.Exchanged? ==> DoUDP(unqualified, localIP, upstream) == upstream.reply
    ensures var lower := Msg(id, false, opcode, 0, [Question("appstorerrc.cnitv.net.", TypeA, ClassINET)], []);
      upstream.Exchanged? ==> DoUDP(lower, localIP, upstream) == upstream.reply
  {
    assert SpoofedName[..|SpoofedName| - 1] != SpoofedName;
    assert "appstorerrc.cnitv.net."[3] != SpoofedName[3];
  }

  // ---------------------------------------------------------------------
  // getLocalIP

  /** strings.Split(addr, ":")[0]: the text before the first colon, or all
      of it when there is none. */
  function HostPart(addr: string): (r: string)
    ensures ':' !in r
    ensures HasPrefix(addr, r)
    ensures r == addr || addr[|r|] == ':'
  {
    addr[..IndexOf(addr, ':')]
  }

  /** getLocalIP: the host part of the local address of a UDP socket
      towards the upstream resolver; "" when it cannot be opened. */
  function GetLocalIP(localAddr: Option<string>): (ip: string)
    ensures ':' !in ip
    ensures localAddr.None? ==> ip == ""
    ensures localAddr.Some? ==> HasPrefix(localAddr.value, ip)
  {
    match localAddr
    case None => ""
    case Some(addr) => HostPart(addr)
  }

  /** An IPv4 socket address yields its address. */
  lemma LocalIPExample()
    ensures GetLocalIP(Some("192.168.1.5:51234")) == "192.168.1.5"
    ensures GetLocalIP(None) == ""
  {
    hide IndexOf;  // the position of the colon is asserted directly
    var addr := "192.168.1.5:51234";
    assert addr[11] == ':';
    assert forall i | 0 <= i < 11 :: addr[i] != ':';
    assert IndexOf(addr, ':') == 11;
  }
}
