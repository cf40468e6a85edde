/** Share links: printed from a listener (build_share_link in proxy_inbound.py) and read back into
    an outbound (proxy_url_parsers.py), for trojan over TLS, hysteria2 and shadowsocks. */
module ShareLink {
  import opened Wrappers
  import opened Text
  import opened Percent
  import opened Decimal
  import Base64Url

  // ---- Listeners ----

  datatype Kind = Trojan | Hysteria2 | Shadowsocks

  /** network: raw, ws, httpupgrade, xhttp or grpc; an empty host or mode is none. */
  datatype Transport = Transport(network: string, path: string, host: string, serviceName: string, mode: string)

  /** What clients dial: the listener's own, or that of the front it is behind. An empty name or
      address is none, and so is a share port of 0. */
  datatype Face = Face(trojan: bool, tls: bool, serverName: string, alpn: seq<string>, port: nat, sharePort: nat,
      shareAddress: string)

  datatype User = User(name: string, secret: string)

  datatype Listener = Listener(kind: Kind, tag: string, face: Face, front: Option<Face>, transport: Transport,
      fingerprint: string,
                               users: seq<User>, cipher: string, serverPassword: string,
                               salamander: Option<string>, hopping: string)

  /** What a share variant changes; an empty address is the listener's own. */
  datatype Variant = Variant(name: string, address: string, serverName: Option<string>, fingerprint: Option<string>,
                             alpn: Option<seq<string>>, mode: Option<string>, noHopping: bool)

  function Or(a: string, b: string): string { if a != [] then a else b }

  function Given(s: Option<string>): string { if s.Some? then s.value else [] }

  // ---- Printing ----

  /** A parameter given a value, in its place if it is there. */
  function Set(params: seq<Param>, key: string, value: string): seq<Param> {
    if params == [] then [Param(key, value)]
    else if params[|params| - 1].key == key then params[..|params| - 1] + [Param(key, value)]
    else Set(params[..|params| - 1], key, value) + [params[|params| - 1]]
  }

  function Drop(params: seq<Param>, key: string): seq<Param> {
    if params == [] then []
    else Drop(params[..|params| - 1], key) + if params[|params| - 1].key == key then [] else [params[|params| - 1]]
  }

  function SetIf(params: seq<Param>, key: string, value: string, wanted: bool): seq<Param> {
    if wanted then Set(params, key, value) else params
  }

  function TransportParams(t: Transport): seq<Param> {
    var params := Set([], "type", if t.network == "raw" then "tcp" else t.network);
    if t.network == "grpc" then Set(params, "serviceName", t.serviceName)
    else if t.network in {"ws", "httpupgrade", "xhttp"} then
      var params := SetIf(Set(params, "path", t.path), "host", t.host, t.host != []);
      SetIf(params, "mode", t.mode, t.network == "xhttp" && t.mode != [])
    else params
  }

  function SecurityParams(params: seq<Param>, face: Face, server: string, fingerprint: string): seq<Param> {
    if !face.tls && !face.trojan then Set(params, "security", "none")
    else
      var params := Set(Set(params, "security", "tls"), "sni", Or(face.serverName, server));
      var params := SetIf(params, "fp", fingerprint, fingerprint != []);
      SetIf(params, "alpn", Join(face.alpn, ','), face.alpn != [])
  }

  function HysteriaParams(l: Listener, server: string): seq<Param> {
    var alpn := if l.face.alpn != [] then l.face.alpn else ["h3"];
    var params := Set(Set([], "sni", Or(l.face.serverName, server)), "alpn", Join(alpn, ','));
    var params := if l.salamander.Some? then Set(Set(params, "obfs", "salamander"), "obfs-password", l.salamander.value)
                  else params;
    SetIf(params, "mport", l.hopping, l.hopping != [])
  }

  predicate Has(params: seq<Param>, key: string) {
    exists i :: 0 <= i < |params| && params[i].key == key
  }

  function Varied(params: seq<Param>, v: Option<Variant>, kind: Kind): seq<Param> {
    if v == None then params
    else
      var v := v.value;
      var params := Tuned(params, v);
      var params := SetIf(params, "sni", Given(v.serverName), v.serverName.Some? && Has(params, "sni"));
      if kind == Hysteria2 && v.noHopping then Drop(params, "mport") else params
  }

  /** What a variant says of the handshake and of XHTTP. */
  function Tuned(params: seq<Param>, v: Variant): seq<Param> {
    var params := SetIf(params, "fp", Given(v.fingerprint),
                        v.fingerprint.Some? && Lookup(params, "security") in {"tls", "reality"});
    var params := if v.alpn == None then params
                  else if v.alpn.value != [] then Set(params, "alpn", Join(v.alpn.value, ','))
                  else Drop(params, "alpn");
    SetIf(params, "mode", Given(v.mode), v.mode.Some? && Lookup(params, "type") == "xhttp")
  }

  function Dialled(l: Listener): Face { if l.front.Some? then l.front.value else l.face }

  function ServerAddress(l: Listener, server: string): string { Or(Dialled(l).shareAddress, server) }

  /** The address the link names: an onion's, a variant's, or the server's. */
  function EndpointAddress(l: Listener, server: string, onion: string, v: Option<Variant>): string {
    Or(onion, Or(if v.Some? then v.value.address else [], ServerAddress(l, server)))
  }

  function SharePort(f: Face): nat { if f.sharePort != 0 then f.sharePort else f.port }

  function Bracketed(address: string): string {
    if ':' in address then ['['] + address + [']'] else address
  }

  function Endpoint(address: string, port: nat): string {
    Bracketed(address) + [':'] + Show(port)
  }

  function UserName(l: Listener, i: nat): string
    requires i < |l.users|
  {
    Or(l.users[i].name, l.tag + "-" + Show(i))
  }

  function Label(l: Listener, i: nat, onion: string, v: Option<Variant>): string
    requires i < |l.users|
  {
    if v.Some? then l.tag + " " + v.value.name + " (" + UserName(l, i) + ")"
    else if onion != [] then l.tag + " (" + UserName(l, i) + ", onion)"
    else l.tag + " (" + UserName(l, i) + ")"
  }

  /** With several users a shadowsocks client presents the server's key and its own. */
  function Secret(l: Listener, i: nat): string
    requires i < |l.users|
  {
    if l.kind == Shadowsocks && |l.users| > 1 then l.serverPassword + [':'] + l.users[i].secret else l.users[i].secret
  }

  predicate Cipher2022(cipher: string) { "2022-" <= cipher }

  function SsUserinfo(cipher: string, secret: string): string
    requires Octets(cipher) && Octets(secret)
  {
    if Cipher2022(cipher) then cipher + [':'] + Quote(secret) else Base64Url.Encode(cipher + [':'] + secret)
  }

  function LinkParams(l: Listener, server: string, v: Option<Variant>): seq<Param> {
    var address := ServerAddress(l, server);
    if l.kind == Hysteria2 then Varied(HysteriaParams(l, address), v, l.kind)
    else Varied(SecurityParams(TransportParams(l.transport), Dialled(l), address, l.fingerprint), v, l.kind)
  }

  function Scheme(kind: Kind): string {
    match kind case Trojan => "trojan://" case Hysteria2 => "hysteria2://" case Shadowsocks => "ss://"
  }

  function Body(userinfo: string, endpoint: string, query: Option<string>, fragment: string): string {
    userinfo + ['@'] + endpoint + (if query.Some? then ['?'] + query.value else []) + ['#'] + fragment
  }

  /** All text is UTF-8 bytes. */
  predicate Printable(l: Listener, server: string, i: nat, onion: string, v: Option<Variant>)
    requires i < |l.users|
  {
    Octets(Secret(l, i)) && Octets(l.cipher) && Octets(Label(l, i, onion, v)) && OctetParams(LinkParams(l, server, v))
  }

  /** None when there is no such user. */
  function BuildShareLink(l: Listener, server: string, i: int, onion: string, v: Option<Variant>): Option<string>
    requires 0 <= i < |l.users| ==> Printable(l, server, i, onion, v)
  {
    if i < 0 || i >= |l.users| then None
    else
      var fragment := Quote(Label(l, i, onion, v));
      var endpoint := Endpoint(EndpointAddress(l, server, onion, v), SharePort(Dialled(l)));
      Some(Scheme(l.kind)
           + if l.kind == Shadowsocks then Body(SsUserinfo(l.cipher, Secret(l, i)), endpoint, None, fragment)
             else Body(Quote(Secret(l, i)), endpoint, Some(UrlEncode(LinkParams(l, server, v))), fragment))
  }

  // ---- Reading ----

  datatype Parts = Parts(userinfo: string, host: string, port: string, params: seq<Param>)

  function SplitHostPort(s: string): Option<(string, string)> {
    var host, port := Front(s, ':'), Rest(s, ':');
    if ':' !in s || host == [] || port == [] then None
    else if |host| >= 2 && host[0] == '[' && host[|host| - 1] == ']' then Some((host[1..|host| - 1], port))
    else Some((host, port))
  }

  function ParseParts(rest: string): Option<Parts> {
    var rest := Head(rest, '#');
    var authority := Head(rest, '?');
    var hostport := SplitHostPort(Head(Rest(authority, '@'), '/'));
    if hostport == None then None
    else Some(Parts(Front(authority, '@'), hostport.value.0, hostport.value.1, ParseQuery(Tail(rest, '?'))))
  }

  function ParsePort(s: string): Option<nat> {
    if s != [] && AllDigits(s) && 1 <= Read(s) <= 65535 then Some(Read(s)) else None
  }

  function Param1(params: seq<Param>, key: string, default: string): string { Or(Lookup(params, key), default) }

  /** What an outbound's transport is: its path or service name, and its host. */
  datatype TransportOut = Plain | Over(network: string, path: string, host: string)

  datatype Outbound =
    | TrojanOut(server: string, port: nat, password: string, sni: string, transport: TransportOut,
        fingerprint: string, alpn: seq<string>)
    | Hysteria2Out(server: string, port: nat, password: string, sni: string, obfs: Option<string>, ports: seq<string>)
    | ShadowsocksOut(server: string, port: nat, cipher: string, password: string)

  function Lower(s: string): string {
    seq(|s|, i requires 0 <= i < |s| => if 'A' <= s[i] <= 'Z' then (s[i] as int + 32) as char else s[i])
  }

  predicate Supported(network: string, xray: bool) {
    network in {"", "tcp", "raw", "ws", "grpc", "httpupgrade"}
    || (if xray then network in {"xhttp", "splithttp"} else network in {"h2", "http", "quic"})
  }

  function MkTransport(network: string, path: string, host: string, serviceName: string): TransportOut {
    if network in {"ws", "httpupgrade"} then Over(network, Unquote(path), host)
    else if network == "grpc" then Over(network, Unquote(serviceName), [])
    else if network in {"h2", "http"} then Over("http", Unquote(path), host)
    else if network == "quic" then Over(network, [], [])
    else if network in {"xhttp", "splithttp"} then Over("xhttp", Unquote(path), host)
    else Plain
  }

  /** A list's items, trimmed, without blank ones. */
  function Alpn(items: seq<string>): seq<string> {
    if items == [] then []
    else (if Trim(items[0]) == [] then [] else [Trim(items[0])]) + Alpn(items[1..])
  }

  function ParseTrojan(rest: string, xray: bool): Option<Outbound> {
    var parts := ParseParts(rest);
    if parts == None then None
    else
      var p := parts.value;
      var network := Lower(Param1(p.params, "type", "tcp"));
      var port := ParsePort(p.port);
      var password := Unquote(p.userinfo);
      var header := Lower(Param1(p.params, "headerType", "none"));
      var path, host := Param1(p.params, "path", "/"), Param1(p.params, "host", p.host);
      var disguised := header != "none" && network in {"", "tcp", "raw", "quic"};
      if !Supported(network, xray) || port == None || password == []
         || (disguised && !(xray && header == "http")) then None
      else
        Some(TrojanOut(p.host, port.value, password, Param1(p.params, "sni", host),
                       if disguised then Over("tcp+http", path, host)
                       else MkTransport(network, path, host, Lookup(p.params, "serviceName")),
                       Lookup(p.params, "fp"), Alpn(Split(Lookup(p.params, "alpn"), ','))))
  }

  /** from-to, or a lone port, as from:to. */
  function PortRange(s: string): Option<string> {
    var low := Head(s, '-');
    var high := if '-' in s then Tail(s, '-') else low;
    if low != [] && AllDigits(low) && high != [] && AllDigits(high) && 1 <= Read(low) <= Read(high) <= 65535 then
      Some(Show(Read(low)) + [':'] + Show(Read(high)))
    else None
  }

  function PortRanges(items: seq<string>): Option<seq<string>> {
    if items == [] then Some([])
    else
      var rest := PortRanges(items[1..]);
      if Trim(items[0]) == [] then rest
      else
        var first := PortRange(Trim(items[0]));
        if first == None || rest == None then None else Some([first.value] + rest.value)
  }

  function ParseHysteria2(rest: string): Option<Outbound> {
    var parts := ParseParts(rest);
    if parts == None then None
    else
      var p := parts.value;
      var port := ParsePort(p.port);
      var salamander := Lookup(p.params, "obfs") == "salamander";
      var obfs, mport := Lookup(p.params, "obfs-password"), Lookup(p.params, "mport");
      var ranges := if mport == [] then Some([]) else PortRanges(Split(mport, ','));
      if port == None || (salamander && obfs == []) || ranges == None then None
      else
        Some(Hysteria2Out(p.host, port.value, Unquote(p.userinfo), Param1(p.params, "sni", p.host),
                          if salamander then Some(obfs) else None, ranges.value))
  }

  /** Trailing padding goes. */
  function Unpadded(s: string): string
    decreases |s|
  {
    if s != [] && s[|s| - 1] == '=' then Unpadded(s[..|s| - 1]) else s
  }

  function FromBase64(s: string): Option<string> {
    if Base64Url.AllReadable(s) then Base64Url.Decode(s) else None
  }

  function Pair(s: string): Option<(string, string)> {
    if ':' in s then Some((Head(s, ':'), Tail(s, ':'))) else None
  }

  function SsCredentials(userinfo: string): Option<(string, string)> {
    var plain := Unquote(userinfo);
    if ':' in plain then Pair(plain)
    else
      var decoded := FromBase64(Unpadded(plain));
      if decoded == None then None else Pair(decoded.value)
  }

  /** userinfo@host:port, or all of that in base64. */
  function ParseShadowsocks(rest: string): Option<Outbound> {
    var endpoint := Head(Head(rest, '#'), '?');
    var parts :=
      if '@' in endpoint then ParseParts(rest)
      else
        var decoded := FromBase64(Unpadded(Unquote(endpoint)));
        if decoded == None || '@' !in decoded.value then None
        else
          var hostport := SplitHostPort(Rest(decoded.value, '@'));
          if hostport == None then None
          else Some(Parts(Front(decoded.value, '@'), hostport.value.0, hostport.value.1, []));
    if parts == None then None
    else
      var credentials, port := SsCredentials(parts.value.userinfo), ParsePort(parts.value.port);
      if credentials == None || port == None then None
      else Some(ShadowsocksOut(parts.value.host, port.value, credentials.value.0, credentials.value.1))
  }

  /** By the link's scheme. */
  function ParseLink(url: string, xray: bool): Option<Outbound> {
    if "trojan://" <= url then ParseTrojan(url[|"trojan://"|..], xray)
    else if "hysteria2://" <= url then ParseHysteria2(url[|"hysteria2://"|..])
    else if "hy2://" <= url then ParseHysteria2(url[|"hy2://"|..])
    else if "ss://" <= url then ParseShadowsocks(url[|"ss://"|..])
    else None
  }

  // ---- Reading back what was printed ----

  /** A host name or address: nothing in it that cuts a URL, and no brackets of its own around it. */
  predicate GoodAddress(a: string) {
    a != [] && '#' !in a && '?' !in a && '@' !in a && '/' !in a
    && (':' in a || !(|a| >= 2 && a[0] == '[' && a[|a| - 1] == ']'))
  }

  lemma ShowPlain(n: nat, c: char)
    requires !IsDigit(c)
    ensures c !in Show(n)
  {}

  lemma HostBack(address: string, port: nat)
    requires GoodAddress(address)
    ensures SplitHostPort(Endpoint(address, port)) == Some((address, Show(port)))
    // Only an address with colons in it is put in brackets.
    ensures Endpoint(address, port)[0] == '[' <==> ':' in address || address[0] == '['
  {
    hide Show;
    ShowPlain(port, ':');
    var host := Bracketed(address);
    FrontRest(host, ':', Show(port));
    var e := Endpoint(address, port);
    assert e[|host|] == ':';
    if ':' in address {
      assert host[1..|host| - 1] == address;
    }
  }

  lemma EndpointPlain(address: string, port: nat)
    requires GoodAddress(address)
    ensures var e := Endpoint(address, port); '#' !in e && '?' !in e && '@' !in e && '/' !in e
  {
    hide Show;
    ShowPlain(port, '#');
    ShowPlain(port, '?');
    ShowPlain(port, '@');
    ShowPlain(port, '/');
  }

  /** The parts of a link, whatever the fragment. */
  lemma PartsBack(userinfo: string, address: string, port: nat, query: Option<string>, fragment: string)
    requires GoodAddress(address) && '#' !in userinfo && '?' !in userinfo && (query.Some? ==> '#' !in query.value)
    ensures ParseParts(Body(userinfo, Endpoint(address, port), query, fragment))
         == Some(Parts(userinfo, address, Show(port), ParseQuery(if query.Some? then query.value else [])))
    ensures Head(Head(Body(userinfo, Endpoint(address, port), query, fragment), '#'), '?')
      == userinfo + ['@'] + Endpoint(address, port)
  {
    hide Show, Head, Tail, Front, Rest, Endpoint, ParseQuery, SplitHostPort;
    var e := Endpoint(address, port);
    EndpointPlain(address, port);
    HostBack(address, port);
    var authority := userinfo + ['@'] + e;
    var before := authority + if query.Some? then ['?'] + query.value else [];
    HeadTail(before, '#', fragment);
    assert Body(userinfo, e, query, fragment) == before + ['#'] + fragment;
    if query.Some? {
      HeadTail(authority, '?', query.value);
      assert before == authority + ['?'] + query.value;
    } else {
      HeadAlone(authority, '?');
      assert before == authority;
    }
    FrontRest(userinfo, '@', e);
    HeadAlone(e, '/');
  }

  lemma PortBack(n: nat)
    requires 1 <= n <= 65535
    ensures ParsePort(Show(n)) == Some(n)
  {
    ReadShow(n);
  }

  // ---- Parameters ----

  lemma {:induction false} LookupSet(params: seq<Param>, key: string, value: string, k: string)
    ensures Lookup(Set(params, key, value), k) == if k == key then value else Lookup(params, k)
    ensures OctetParams(params) && Octets(key) && Octets(value) ==> OctetParams(Set(params, key, value))
    decreases |params|
  {
    if params != [] {
      LookupSet(params[..|params| - 1], key, value, k);
      var set' := Set(params, key, value);
      if params[|params| - 1].key == key {
        assert set'[..|set'| - 1] == params[..|params| - 1];
      } else {
        assert set'[..|set'| - 1] == Set(params[..|params| - 1], key, value);
      }
    } else {
      assert Set(params, key, value)[..0] == [];
    }
  }

  lemma {:induction false} LookupDrop(params: seq<Param>, key: string, k: string)
    ensures Lookup(Drop(params, key), k) == if k == key then [] else Lookup(params, k)
    decreases |params|
  {
    if params != [] {
      var rest := Drop(params[..|params| - 1], key);
      LookupDrop(params[..|params| - 1], key, k);
      if params[|params| - 1].key != key {
        assert Drop(params, key)[..|Drop(params, key)| - 1] == rest;
      } else {
        assert Drop(params, key) == rest;
      }
    }
  }

  lemma {:induction false} HasSet(params: seq<Param>, key: string, value: string, k: string)
    ensures Has(Set(params, key, value), k) <==> k == key || Has(params, k)
    decreases |params|
  {
    if params == [] {
      assert Set(params, key, value)[0].key == key;
    } else {
      var rest, last := params[..|params| - 1], params[|params| - 1];
      HasSet(rest, key, value, k);
      HasLast(params, k);
      HasLast(Set(params, key, value), k);
      var set' := Set(params, key, value);
      assert set'[..|set'| - 1] == if last.key == key then rest else Set(rest, key, value);
    }
  }

  lemma HasLast(params: seq<Param>, k: string)
    requires params != []
    ensures Has(params, k) <==> params[|params| - 1].key == k || Has(params[..|params| - 1], k)
  {
    if Has(params, k) {
      var i :| 0 <= i < |params| && params[i].key == k;
      if i < |params| - 1 { assert params[..|params| - 1][i].key == k; }
    }
  }

  lemma {:induction false} HasDrop(params: seq<Param>, key: string, k: string)
    requires k != key
    ensures Has(Drop(params, key), k) <==> Has(params, k)
    decreases |params|
  {
    if params != [] {
      HasDrop(params[..|params| - 1], key, k);
      HasLast(params, k);
      var rest, dropped := Drop(params[..|params| - 1], key), Drop(params, key);
      if params[|params| - 1].key != key {
        HasLast(dropped, k);
        assert dropped[..|dropped| - 1] == rest;
      } else {
        assert dropped == rest;
      }
    }
  }

  lemma Kept(params: seq<Param>, key: string, value: string, wanted: bool, k: string)
    ensures Lookup(SetIf(params, key, value, wanted), k) == if wanted && k == key then value else Lookup(params, k)
    ensures Has(SetIf(params, key, value, wanted), k) <==> (wanted && k == key) || Has(params, k)
  {
    LookupSet(params, key, value, k);
    HasSet(params, key, value, k);
  }

  /** What a variant can change: these, and no other parameter. */
  const VARIED := {"fp", "alpn", "mode", "sni", "mport"}

  lemma VariedLookup(params: seq<Param>, v: Option<Variant>, kind: Kind, k: string)
    ensures k !in VARIED ==> Lookup(Varied(params, v, kind), k) == Lookup(params, k)
    ensures Lookup(Varied(params, v, kind), "sni")
         == if v.Some? && v.value.serverName.Some? && Has(params, "sni") then v.value.serverName.value
            else Lookup(params, "sni")
    ensures Lookup(Varied(params, v, kind), "mport")
         == if v.Some? && v.value.noHopping && kind == Hysteria2 then [] else Lookup(params, "mport")
  {
    hide Lookup, Has, Set, Drop, Join;
    if v.Some? {
      VariedAt(params, v.value, kind, k);
      VariedAt(params, v.value, kind, "sni");
      VariedAt(params, v.value, kind, "mport");
    }
  }

  lemma VariedAt(params: seq<Param>, v: Variant, kind: Kind, k: string)
    ensures k !in VARIED ==> Lookup(Varied(params, Some(v), kind), k) == Lookup(params, k)
    ensures k == "sni" ==>
      Lookup(Varied(params, Some(v), kind), k)
      == if v.serverName.Some? && Has(params, "sni") then v.serverName.value else Lookup(params, k)
    ensures k == "mport" ==>
      Lookup(Varied(params, Some(v), kind), k) == if v.noHopping && kind == Hysteria2 then [] else Lookup(params, k)
    ensures k in {"fp", "alpn", "mode"} ==> Lookup(Varied(params, Some(v), kind), k) == TunedTo(params, v, k)
  {
    hide Lookup, Has, Drop, SetIf, Tuned;
    var tuned := Tuned(params, v);
    TunedAt(params, v, k);
    TunedAt(params, v, "sni");
    Kept(tuned, "sni", Given(v.serverName), v.serverName.Some? && Has(tuned, "sni"), k);
    LookupDrop(SetIf(tuned, "sni", Given(v.serverName), v.serverName.Some? && Has(tuned, "sni")), "mport", k);
  }

  lemma NoneJoined()
    ensures Join([], ',') == []
  {}

  /** What a variant gives for one of these, if it gives it; the fingerprint only where there is a
      handshake to send it in, the mode only over XHTTP. */
  function TunedTo(params: seq<Param>, v: Variant, k: string): string {
    if k == "fp" && v.fingerprint.Some? && Lookup(params, "security") in {"tls", "reality"} then v.fingerprint.value
    else if k == "alpn" && v.alpn.Some? then Join(v.alpn.value, ',')
    else if k == "mode" && v.mode.Some? && Lookup(params, "type") == "xhttp" then v.mode.value
    else Lookup(params, k)
  }

  lemma TunedAt(params: seq<Param>, v: Variant, k: string)
    ensures k !in {"fp", "alpn", "mode"} ==>
              Lookup(Tuned(params, v), k) == Lookup(params, k) && (Has(Tuned(params, v), k) <==> Has(params, k))
    ensures k in {"fp", "alpn", "mode"} ==> Lookup(Tuned(params, v), k) == TunedTo(params, v, k)
  {
    hide Lookup, Has, Set, Drop, SetIf, Join;
    var wanted := v.fingerprint.Some? && Lookup(params, "security") in {"tls", "reality"};
    var fp := SetIf(params, "fp", Given(v.fingerprint), wanted);
    Kept(params, "fp", Given(v.fingerprint), wanted, k);
    Kept(params, "fp", Given(v.fingerprint), wanted, "type");
    var alpn := if v.alpn == None then fp
                else if v.alpn.value != [] then Set(fp, "alpn", Join(v.alpn.value, ','))
                else Drop(fp, "alpn");
    if v.alpn.Some? {
      if v.alpn.value != [] {
        LookupSet(fp, "alpn", Join(v.alpn.value, ','), k);
        LookupSet(fp, "alpn", Join(v.alpn.value, ','), "type");
        HasSet(fp, "alpn", Join(v.alpn.value, ','), k);
      } else {
        LookupDrop(fp, "alpn", k);
        LookupDrop(fp, "alpn", "type");
        NoneJoined();
        if k != "alpn" { HasDrop(fp, "alpn", k); }
      }
    }
    Kept(alpn, "mode", Given(v.mode), v.mode.Some? && Lookup(alpn, "type") == "xhttp", k);
  }

  const PATHED := {"ws", "httpupgrade", "xhttp"}

  lemma TransportLookup(t: Transport, k: string)
    ensures var params := TransportParams(t);
            Lookup(params, k)
            == (if k == "type" then if t.network == "raw" then "tcp" else t.network
                else if k == "serviceName" && t.network == "grpc" then t.serviceName
                else if k == "path" && t.network in PATHED then t.path
                else if k == "host" && t.network in PATHED then t.host
                else if k == "mode" && t.network == "xhttp" then t.mode
                else [])
  {
    hide Set, Lookup, SetIf;
    NoParams("host");
    NoParams("mode");
    LookupSet([], "type", if t.network == "raw" then "tcp" else t.network, "host");
    LookupSet([], "type", if t.network == "raw" then "tcp" else t.network, "mode");
    var type' := Set([], "type", if t.network == "raw" then "tcp" else t.network);
    LookupSet([], "type", if t.network == "raw" then "tcp" else t.network, k);
    NoParams(k);
    if t.network == "grpc" {
      LookupSet(type', "serviceName", t.serviceName, k);
    } else if t.network in PATHED {
      PathLookup(type', t, k);
    }
  }

  lemma PathLookup(params: seq<Param>, t: Transport, k: string)
    requires Lookup(params, "host") == [] && Lookup(params, "mode") == []
    ensures var params' := SetIf(Set(params, "path", t.path), "host", t.host, t.host != []);
            Lookup(SetIf(params', "mode", t.mode, t.network == "xhttp" && t.mode != []), k)
            == if k == "path" then t.path else if k == "host" then t.host
               else if k == "mode" && t.network == "xhttp" then t.mode else Lookup(params, k)
  {
    hide Set, Lookup, SetIf;
    var path := Set(params, "path", t.path);
    LookupSet(params, "path", t.path, k);
    LookupSet(params, "path", t.path, "host");
    LookupSet(params, "path", t.path, "mode");
    Kept(path, "host", t.host, t.host != [], "mode");
    Kept(path, "host", t.host, t.host != [], k);
    Kept(SetIf(path, "host", t.host, t.host != []), "mode", t.mode, t.network == "xhttp" && t.mode != [], k);
  }

  lemma NoParams(k: string)
    ensures Lookup([], k) == [] && !Has([], k)
  {}

  lemma SecurityLookup(params: seq<Param>, face: Face, server: string, fingerprint: string, k: string)
    requires face.tls || face.trojan
    ensures var all := SecurityParams(params, face, server, fingerprint);
            (k !in {"security", "sni", "fp", "alpn"} ==> Lookup(all, k) == Lookup(params, k))
            && Lookup(all, "sni") == Or(face.serverName, server) && Has(all, "sni")
  {
    hide Set, Lookup, Has, Join, Or;
    SecurityAt(params, face, server, fingerprint, k);
    SecurityAt(params, face, server, fingerprint, "sni");
  }

  lemma SecurityAt(params: seq<Param>, face: Face, server: string, fingerprint: string, k: string)
    requires face.tls || face.trojan
    ensures var all := SecurityParams(params, face, server, fingerprint);
            (k !in {"security", "sni", "fp", "alpn"} ==> Lookup(all, k) == Lookup(params, k))
            && (k == "sni" ==> Lookup(all, k) == Or(face.serverName, server) && Has(all, k))
            && (k == "security" ==> Lookup(all, k) == "tls")
            && (k == "fp" ==> Lookup(all, k) == if fingerprint != [] then fingerprint else Lookup(params, k))
            && (k == "alpn" ==> Lookup(all, k) == if face.alpn != [] then Join(face.alpn, ',') else Lookup(params, k))
  {
    hide Set, Lookup, Has, Join, Or, SetIf;
    var security := Set(params, "security", "tls");
    var sni := Set(security, "sni", Or(face.serverName, server));
    var fp := SetIf(sni, "fp", fingerprint, fingerprint != []);
    LookupSet(params, "security", "tls", k);
    LookupSet(security, "sni", Or(face.serverName, server), k);
    HasSet(security, "sni", Or(face.serverName, server), k);
    Kept(sni, "fp", fingerprint, fingerprint != [], k);
    Kept(fp, "alpn", Join(face.alpn, ','), face.alpn != [], k);
  }

  /** The name a TLS link carries. */
  function Sni(l: Listener, server: string, v: Option<Variant>): string {
    if v.Some? && v.value.serverName.Some? then v.value.serverName.value
    else Or(if l.kind == Hysteria2 then l.face.serverName else Dialled(l).serverName, ServerAddress(l, server))
  }

  /** What a link is to lead a client to, and the name it is to send. */
  datatype Target = Target(address: string, port: nat, name: string)

  /** An onion's address, else the variant's, else the name of the listener dialled, else the
      server's; the port and the name of the listener dialled, unless a variant has another name. */
  function Leads(l: Listener, server: string, onion: string, v: Option<Variant>): Target {
    var dialled := if l.front == None then l.face else l.front.value;
    var own := if dialled.shareAddress == [] then server else dialled.shareAddress;
    var named := if l.kind == Hysteria2 then l.face.serverName else dialled.serverName;
    Target(
      if onion != [] then onion else if v == None || v.value.address == [] then own else v.value.address,
      if dialled.sharePort == 0 then dialled.port else dialled.sharePort,
      if v.Some? && v.value.serverName.Some? then v.value.serverName.value else if named == [] then own else named)
  }

  lemma LeadsThere(l: Listener, server: string, onion: string, v: Option<Variant>)
    ensures Leads(l, server, onion, v)
         == Target(EndpointAddress(l, server, onion, v), SharePort(Dialled(l)), Sni(l, server, v))
  {}

  /** What of the handshake a trojan link over TLS says: the fingerprint, the ALPN list and XHTTP's
      mode are the variant's where it has them. */
  lemma TrojanSends(l: Listener, server: string, v: Option<Variant>)
    requires l.kind == Trojan && (Dialled(l).tls || Dialled(l).trojan)
    ensures var params, own := LinkParams(l, server, v), if l.front == None then l.face else l.front.value;
            Lookup(params, "security") == "tls"
            && Lookup(params, "fp")
               == (if v.Some? && v.value.fingerprint.Some? then v.value.fingerprint.value else l.fingerprint)
            && Lookup(params, "alpn")
              == Join(if v.Some? && v.value.alpn.Some? then v.value.alpn.value else own.alpn, ',')
            && Lookup(params, "mode")
               == (if l.transport.network != "xhttp" then []
                   else if v.Some? && v.value.mode.Some? then v.value.mode.value else l.transport.mode)
  {
    TrojanSent(l, server, v, "security");
    TrojanSent(l, server, v, "fp");
    TrojanSent(l, server, v, "alpn");
    TrojanSent(l, server, v, "mode");
  }

  lemma TrojanSent(l: Listener, server: string, v: Option<Variant>, k: string)
    requires l.kind == Trojan && (Dialled(l).tls || Dialled(l).trojan) && k in {"security", "fp", "alpn", "mode"}
    ensures var params, own := LinkParams(l, server, v), if l.front == None then l.face else l.front.value;
            Lookup(params, k)
            == match k
               case "security" => "tls"
               case "fp" => (if v.Some? && v.value.fingerprint.Some? then v.value.fingerprint.value else l.fingerprint)
               case "alpn" => Join(if v.Some? && v.value.alpn.Some? then v.value.alpn.value else own.alpn, ',')
               case "mode" => (if l.transport.network != "xhttp" then []
                               else if v.Some? && v.value.mode.Some? then v.value.mode.value else l.transport.mode)
  {
    hide Set, Lookup, Has, Or, SecurityParams, TransportParams, Tuned, SetIf, Drop, Join;
    var face, t := Dialled(l), TransportParams(l.transport);
    var address := ServerAddress(l, server);
    var all := SecurityParams(t, face, address, l.fingerprint);
    NoneJoined();
    TransportLookup(l.transport, k);
    TransportLookup(l.transport, "type");
    SecurityAt(t, face, address, l.fingerprint, k);
    SecurityAt(t, face, address, l.fingerprint, "security");
    SecurityAt(t, face, address, l.fingerprint, "type");
    if v.Some? { VariedAt(all, v.value, l.kind, k); }
  }

  /** A list of names comes back as it was, if they are names: not blank, no comma, no space around. */
  lemma {:induction false} AlpnBack(items: seq<string>)
    requires forall i :: 0 <= i < |items| ==> items[i] != [] && ',' !in items[i] && Trim(items[i]) == items[i]
    ensures Alpn(Split(Join(items, ','), ',')) == items
  {
    hide Trim, Split, Join;
    if items == [] {
      NoneJoined();
      NoneSplit();
    } else {
      SplitJoin(items, ',');
      AlpnSame(items);
    }
  }

  lemma NoneSplit()
    ensures Alpn(Split([], ',')) == []
  {
    var none: seq<string> := [];
    var blank: seq<string> := [[]];
    assert Split([], ',') == blank && blank[1..] == none;
    assert Trim([]) == [] && Alpn(none) == [];
  }

  lemma {:induction false} AlpnSame(items: seq<string>)
    requires forall i :: 0 <= i < |items| ==> items[i] != [] && Trim(items[i]) == items[i]
    ensures Alpn(items) == items
  {
    hide Trim;
    if items != [] { AlpnSame(items[1..]); }
  }

  lemma TrojanLookup(l: Listener, server: string, v: Option<Variant>, k: string)
    requires l.kind == Trojan && (Dialled(l).tls || Dialled(l).trojan)
    ensures k !in VARIED + {"security"} ==>
      Lookup(LinkParams(l, server, v), k) == Lookup(TransportParams(l.transport), k)
    ensures Lookup(LinkParams(l, server, v), "sni") == Sni(l, server, v)
  {
    hide Set, Lookup, Has, Or, SecurityParams, TransportParams, Varied;
    var address := ServerAddress(l, server);
    SecurityLookup(TransportParams(l.transport), Dialled(l), address, l.fingerprint, k);
    VariedLookup(SecurityParams(TransportParams(l.transport), Dialled(l), address, l.fingerprint), v, l.kind, k);
  }

  /** A transport as it comes back: a blank path is /, a blank host the server's address, and what is
      an escape in the path itself is undone once more. */
  function TransportBack(t: Transport, address: string): TransportOut {
    if t.network in PATHED then Over(t.network, Unquote(Or(t.path, "/")), Or(t.host, address))
    else if t.network == "grpc" then Over("grpc", Unquote(t.serviceName), [])
    else Plain
  }

  predicate Carried(l: Listener, server: string, i: int, onion: string, v: Option<Variant>) {
    0 <= i < |l.users| && Printable(l, server, i, onion, v)
    && GoodAddress(Leads(l, server, onion, v).address) && 1 <= Leads(l, server, onion, v).port <= 65535
  }

  lemma LowerNetworks(network: string)
    requires network in {"tcp", "ws", "httpupgrade", "xhttp", "grpc", "none"}
    ensures Lower(network) == network
  {
    assert forall c :: c in network ==> !('A' <= c <= 'Z');
    assert |Lower(network)| == |network|;
  }

  /** A trojan link gives back the address, the port and the password, any characters and all, and
      the name and transport it carries. */
  lemma TrojanBack(l: Listener, server: string, i: int, onion: string, v: Option<Variant>, xray: bool)
    requires l.kind == Trojan && Carried(l, server, i, onion, v) && (Dialled(l).tls || Dialled(l).trojan)
    requires l.users[i].secret != []
    requires l.transport.network in {"raw", "ws", "httpupgrade", "xhttp", "grpc"}
      && (l.transport.network == "xhttp" ==> xray)
    ensures var lead, own := Leads(l, server, onion, v), if l.front == None then l.face else l.front.value;
            var host := if l.transport.network in PATHED then l.transport.host else [];
            var alpn := if v.Some? && v.value.alpn.Some? then v.value.alpn.value else own.alpn;
            ParseLink(BuildShareLink(l, server, i, onion, v).value, xray)
            == Some(TrojanOut(lead.address, lead.port, l.users[i].secret,
                              if lead.name != [] then lead.name else if host != [] then host else lead.address,
                              TransportBack(l.transport, lead.address),
                              if v.Some? && v.value.fingerprint.Some? then v.value.fingerprint.value else l.fingerprint,
                              Alpn(Split(Join(alpn, ','), ','))))
  {
    hide Quote, Unquote, Lookup, Endpoint, EndpointAddress, Show, UrlEncode, LinkParams, Label, Sni, Leads, SharePort,
        GoodAddress;
    hide Body, ParseParts, Octets, OctetParams, ParseTrojan, ParseLink, TransportBack;
    var address, port, params := Leads(l, server, onion, v).address, Leads(l, server, onion, v).port,
        LinkParams(l, server, v);
    LeadsThere(l, server, onion, v);
    var body := Body(Quote(l.users[i].secret), Endpoint(address, port), Some(UrlEncode(params)),
                     Quote(Label(l, i, onion, v)));
    BodyBack(l, server, i, onion, v);
    TrojanParam(l, server, v, "type");
    TrojanParam(l, server, v, "path");
    TrojanParam(l, server, v, "host");
    TrojanParam(l, server, v, "serviceName");
    TrojanParam(l, server, v, "headerType");
    TrojanLookup(l, server, v, "sni");
    TrojanSends(l, server, v);
    LeadsThere(l, server, onion, v);
    SomeAddress(address);
    TrojanRead(body, Quote(l.users[i].secret), address, port, params, l.transport, xray);
    Dispatched(Trojan, body, xray);
  }

  /** sing-box has no XHTTP: such a link is refused for it. */
  lemma XhttpRefused(l: Listener, server: string, i: int, onion: string, v: Option<Variant>)
    requires l.kind == Trojan && Carried(l, server, i, onion, v) && (Dialled(l).tls || Dialled(l).trojan)
    requires l.transport.network == "xhttp"
    ensures ParseLink(BuildShareLink(l, server, i, onion, v).value, false) == None
  {
    hide Quote, Unquote, Lookup, Endpoint, EndpointAddress, Show, UrlEncode, LinkParams, Label, Sni, Leads, SharePort,
        GoodAddress, Body, ParseParts, Octets, OctetParams, ParseLink, ParsePort, Lower, Alpn, Split, MkTransport;
    LeadsThere(l, server, onion, v);
    BodyBack(l, server, i, onion, v);
    TrojanParam(l, server, v, "type");
    LowerNetworks("xhttp");
    var address, port, params := Leads(l, server, onion, v).address, Leads(l, server, onion, v).port,
        LinkParams(l, server, v);
    Dispatched(Trojan, Body(Quote(l.users[i].secret), Endpoint(address, port), Some(UrlEncode(params)),
                            Quote(Label(l, i, onion, v))), false);
  }

  /** Behind a front without TLS a link says so, and names nobody. */
  lemma PlainSends(l: Listener, server: string)
    requires l.kind == Trojan && !Dialled(l).tls && !Dialled(l).trojan
    ensures Lookup(LinkParams(l, server, None), "security") == "none"
      && Lookup(LinkParams(l, server, None), "sni") == []
  {
    hide Set, Lookup, TransportParams;
    var t := TransportParams(l.transport);
    LookupSet(t, "security", "none", "security");
    LookupSet(t, "security", "none", "sni");
    TransportLookup(l.transport, "sni");
  }

  lemma SomeAddress(a: string)
    requires GoodAddress(a)
    ensures a != []
  {}

  /** A link is read by the scheme it has. */
  lemma Dispatched(kind: Kind, body: string, xray: bool)
    ensures ParseLink(Scheme(kind) + body, xray)
         == match kind
            case Trojan => ParseTrojan(body, xray)
            case Hysteria2 => ParseHysteria2(body)
            case Shadowsocks => ParseShadowsocks(body)
  {
    hide ParseTrojan, ParseHysteria2, ParseShadowsocks;
    var scheme := Scheme(kind);
    var url := scheme + body;
    assert url[|scheme|..] == body;
    assert url[..|scheme|] == scheme;
    match kind
    case Trojan =>
    case Hysteria2 => assert url[0] == 'h';
    case Shadowsocks => assert url[0] == 's';
  }

  lemma TrojanRead(body: string, userinfo: string, address: string, port: nat, params: seq<Param>, t: Transport,
      xray: bool)
    requires ParseParts(body) == Some(Parts(userinfo, address, Show(port), params)) && 1 <= port <= 65535
      && Unquote(userinfo) != []
    requires t.network in {"raw", "ws", "httpupgrade", "xhttp", "grpc"} && (t.network == "xhttp" ==> xray)
      && address != []
    requires Lookup(params, "type") == (if t.network == "raw" then "tcp" else t.network)
    requires Lookup(params, "serviceName") == if t.network == "grpc" then t.serviceName else []
    requires Lookup(params, "path") == if t.network in PATHED then t.path else []
    requires Lookup(params, "host") == if t.network in PATHED then t.host else []
    requires Lookup(params, "headerType") == []
    ensures ParseTrojan(body, xray)
         == Some(TrojanOut(address, port, Unquote(userinfo),
                           Or(Lookup(params, "sni"), Or(Lookup(params, "host"), address)),
                           TransportBack(t, address), Lookup(params, "fp"), Alpn(Split(Lookup(params, "alpn"), ','))))
  {
    hide ParseParts, Unquote, Lookup, Show, ParsePort, Lower, Alpn, Split;
    PortBack(port);
    LowerNetworks("none");
    LowerNetworks(if t.network == "raw" then "tcp" else t.network);
  }

  lemma TrojanParam(l: Listener, server: string, v: Option<Variant>, k: string)
    requires l.kind == Trojan && (Dialled(l).tls || Dialled(l).trojan)
      && k in {"type", "path", "host", "serviceName", "headerType"}
    ensures var t := l.transport;
            Lookup(LinkParams(l, server, v), k)
            == (if k == "type" then if t.network == "raw" then "tcp" else t.network
                else if k == "serviceName" && t.network == "grpc" then t.serviceName
                else if k == "path" && t.network in PATHED then t.path
                else if k == "host" && t.network in PATHED then t.host
                else [])
  {
    hide Lookup, LinkParams, TransportParams;
    TrojanLookup(l, server, v, k);
    TransportLookup(l.transport, k);
  }

  /** The body of a link with a query, taken apart. */
  lemma BodyBack(l: Listener, server: string, i: int, onion: string, v: Option<Variant>)
    requires l.kind != Shadowsocks && Carried(l, server, i, onion, v)
    ensures var address, port := Leads(l, server, onion, v).address, Leads(l, server, onion, v).port;
            var secret, params := l.users[i].secret, LinkParams(l, server, v);
            Octets(secret) && OctetParams(params)
            && ParseParts(Body(Quote(secret), Endpoint(address, port), Some(UrlEncode(params)),
                               Quote(Label(l, i, onion, v))))
               == Some(Parts(Quote(secret), address, Show(port), params))
            && Unquote(Quote(secret)) == secret
  {
    hide Quote, Unquote, Endpoint, EndpointAddress, Leads, SharePort, Sni, Show, UrlEncode, LinkParams, Label,
        ParseQuery, GoodAddress, Body,
        ParseParts;
    var address, port, params := Leads(l, server, onion, v).address, Leads(l, server, onion, v).port,
        LinkParams(l, server, v);
    LeadsThere(l, server, onion, v);
    var secret := l.users[i].secret;
    assert Secret(l, i) == secret;
    QuoteCoded(secret);
    CodedPlain(Quote(secret), '#');
    CodedPlain(Quote(secret), '?');
    QueryPlain(params);
    QueryBack(params);
    PartsBack(Quote(secret), address, port, Some(UrlEncode(params)), Quote(Label(l, i, onion, v)));
    UnquoteQuote(secret);
  }

  /** The path is the listener's own just when there is one, and nothing in it reads as an escape. */
  lemma PathBack(t: Transport, address: string)
    requires t.network in PATHED
    ensures TransportBack(t, address).path == t.path <==> t.path != [] && NoEscape(t.path)
  {
    UnquoteFixed(t.path);
  }

  /** Such a path is unquoted where nobody quoted it. */
  lemma EscapedPath(t: Transport, address: string)
    requires t.network in PATHED && t.path == "/%41"
    ensures TransportBack(t, address).path == "/A"
  {
    var rest := "/%41"[1..];
    assert rest == "%41" && EscapeAt(rest, 0) && rest[3..] == [];
    assert Unquote(rest) == ['A'] + Unquote([]);
    assert !EscapeAt("/%41", 0);
    assert Unquote("/%41") == ['/'] + Unquote(rest);
  }

  lemma ServiceNameBack(t: Transport, address: string)
    requires t.network == "grpc"
    ensures TransportBack(t, address).path == t.serviceName <==> NoEscape(t.serviceName)
  {
    UnquoteFixed(t.serviceName);
  }

  // ---- hysteria2 ----

  /** from-to, as the option asks for: two numbers of a port's range. */
  predicate GoodRange(low: string, high: string) {
    low != [] && AllDigits(low) && high != [] && AllDigits(high) && 1 <= Read(low) <= Read(high) <= 65535
  }

  lemma RangeBack(low: string, high: string)
    requires GoodRange(low, high)
    ensures PortRanges(Split(low + ['-'] + high, ',')) == Some([Show(Read(low)) + [':'] + Show(Read(high))])
  {
    hide Show, Read, Split;
    var s := low + ['-'] + high;
    HeadTail(low, '-', high);
    assert s[|low|] == '-';
    OneRange(s);
  }

  lemma OneRange(s: string)
    requires s != [] && Trim(s) == s && ',' !in s && PortRange(s).Some?
    ensures PortRanges(Split(s, ',')) == Some([PortRange(s).value])
  {
    hide Trim, PortRange;
    var none: seq<string> := [];
    HeadAlone(s, ',');
    assert First(s, ',') == |s|;
    assert Split(s, ',') == [s];
    assert PortRanges(none) == Some([]);
    assert [s][1..] == none;
    assert [PortRange(s).value] + [] == [PortRange(s).value];
  }

  lemma HysteriaLookup(l: Listener, server: string, v: Option<Variant>)
    requires l.kind == Hysteria2
    ensures var params := LinkParams(l, server, v);
            Lookup(params, "sni") == Sni(l, server, v)
            && Lookup(params, "obfs") == (if l.salamander.Some? then "salamander" else [])
            && (l.salamander.Some? ==> Lookup(params, "obfs-password") == l.salamander.value)
            && Lookup(params, "mport") == (if v.Some? && v.value.noHopping then [] else l.hopping)
            && Lookup(params, "alpn")
               == Join(if v.Some? && v.value.alpn.Some? then v.value.alpn.value
                       else if l.face.alpn == [] then ["h3"] else l.face.alpn, ',')
  {
    hide Set, Lookup, Has, Or, HysteriaParams, Tuned, SetIf, Drop, Join;
    HysteriaAt(l, ServerAddress(l, server), "alpn");
    if v.Some? { VariedAt(HysteriaParams(l, ServerAddress(l, server)), v.value, l.kind, "alpn"); }
    var address := ServerAddress(l, server);
    HysteriaAt(l, address, "sni");
    HysteriaAt(l, address, "obfs");
    HysteriaAt(l, address, "obfs-password");
    HysteriaAt(l, address, "mport");
    VariedLookup(HysteriaParams(l, address), v, l.kind, "obfs");
    VariedLookup(HysteriaParams(l, address), v, l.kind, "obfs-password");
  }

  lemma HysteriaAt(l: Listener, server: string, k: string)
    ensures var params := HysteriaParams(l, server);
            Has(params, "sni")
            && Lookup(params, k)
               == (if k == "sni" then Or(l.face.serverName, server)
                   else if k == "alpn" then Join(if l.face.alpn != [] then l.face.alpn else ["h3"], ',')
                   else if k == "obfs" && l.salamander.Some? then "salamander"
                   else if k == "obfs-password" && l.salamander.Some? then l.salamander.value
                   else if k == "mport" then l.hopping
                   else [])
  {
    hide Set, Lookup, Has, Or, SetIf, Join;
    var alpn := Join(if l.face.alpn != [] then l.face.alpn else ["h3"], ',');
    var sni := Set([], "sni", Or(l.face.serverName, server));
    var both := Set(sni, "alpn", alpn);
    LookupSet([], "sni", Or(l.face.serverName, server), k);
    NoParams(k);
    HasSet([], "sni", Or(l.face.serverName, server), "sni");
    LookupSet(sni, "alpn", alpn, k);
    HasSet(sni, "alpn", alpn, "sni");
    var params := both;
    if l.salamander.Some? {
      var obfs := Set(both, "obfs", "salamander");
      LookupSet(both, "obfs", "salamander", k);
      HasSet(both, "obfs", "salamander", "sni");
      LookupSet(obfs, "obfs-password", l.salamander.value, k);
      HasSet(obfs, "obfs-password", l.salamander.value, "sni");
      params := Set(obfs, "obfs-password", l.salamander.value);
    }
    Kept(params, "mport", l.hopping, l.hopping != [], k);
    Kept(params, "mport", l.hopping, l.hopping != [], "sni");
  }

  /** The hop range as the link has it: none, or two numbers of ports. */
  ghost predicate GoodHopping(l: Listener, low: string, high: string) {
    l.hopping == [] || (GoodRange(low, high) && l.hopping == low + ['-'] + high)
  }

  /** A hysteria2 link gives back the address, the port and the password, and the name, the obfs
      password and the hop range it carries. */
  lemma Hysteria2Back(l: Listener, server: string, i: int, onion: string, v: Option<Variant>, low: string, high: string,
      xray: bool)
    requires l.kind == Hysteria2 && Carried(l, server, i, onion, v) && GoodHopping(l, low, high)
    requires l.salamander.Some? ==> l.salamander.value != []
    ensures var lead := Leads(l, server, onion, v);
            ParseLink(BuildShareLink(l, server, i, onion, v).value, xray)
            == Some(Hysteria2Out(lead.address, lead.port, l.users[i].secret,
                                 if lead.name != [] then lead.name else lead.address,
                                 l.salamander,
                                 if l.hopping == [] || (v.Some? && v.value.noHopping) then []
                                 else [Show(Read(low)) + [':'] + Show(Read(high))]))
  {
    hide Quote, Unquote, Lookup, Endpoint, EndpointAddress, Show, Read, UrlEncode, LinkParams, Label, Sni,
        GoodAddress, GoodRange;
    hide Body, ParseParts, Octets, OctetParams, ParsePort, ParseLink, Split, PortRanges;
    var address, port, params := Leads(l, server, onion, v).address, Leads(l, server, onion, v).port,
        LinkParams(l, server, v);
    LeadsThere(l, server, onion, v);
    var body := Body(Quote(l.users[i].secret), Endpoint(address, port), Some(UrlEncode(params)),
                     Quote(Label(l, i, onion, v)));
    BodyBack(l, server, i, onion, v);
    PortBack(port);
    HysteriaLookup(l, server, v);
    if l.hopping != [] { RangeBack(low, high); }
    Dispatched(Hysteria2, body, xray);
  }

  // ---- shadowsocks ----

  /** Cipher names are letters, digits and such. */
  predicate GoodCipher(cipher: string) {
    forall k :: 0 <= k < |cipher| ==> Unreserved(cipher[k])
  }

  lemma {:induction false} UnquoteAfter(a: string, b: string)
    requires '%' !in a
    ensures Unquote(a + b) == a + Unquote(b)
    decreases |a|
  {
    if a == [] {
      assert a + b == b;
    } else {
      UnquoteAfter(a[1..], b);
      assert (a + b)[1..] == a[1..] + b;
      assert !EscapeAt(a + b, 0);
    }
  }

  lemma SsUserinfoBack(cipher: string, secret: string)
    requires Octets(cipher) && Octets(secret) && GoodCipher(cipher)
    ensures SsCredentials(SsUserinfo(cipher, secret)) == Some((cipher, secret))
    ensures '#' !in SsUserinfo(cipher, secret) && '?' !in SsUserinfo(cipher, secret)
    // Plain text for the ciphers of 2022 alone.
    ensures ':' in SsUserinfo(cipher, secret) <==> |cipher| >= 5 && cipher[..5] == "2022-"
  {
    hide Quote, Unquote, Head, Tail, Base64Url.Encode, Base64Url.Decode, Unreserved, Unpadded;
    var plain := cipher + [':'] + secret;
    CipherPlain(cipher);
    HeadTail(cipher, ':', secret);
    assert plain[|cipher|] == ':';
    if Cipher2022(cipher) {
      QuoteCoded(secret);
      CodedPlain(Quote(secret), '#') by { DelimitersReserved(); }
      CodedPlain(Quote(secret), '?') by { DelimitersReserved(); }
      UnquoteAfter(cipher + [':'], Quote(secret));
      UnquoteQuote(secret);
      assert cipher + [':'] + Quote(secret) == (cipher + [':']) + Quote(secret);
    } else {
      var text := Base64Url.Encode(plain);
      Base64Url.DecodeEncode(plain);
      Base64Plain(text);
    }
  }

  lemma DelimitersReserved()
    ensures !Unreserved('#') && !Unreserved('?') && !Unreserved(':') && !Unreserved('@')
  {}

  lemma CipherPlain(cipher: string)
    requires GoodCipher(cipher)
    ensures '%' !in cipher && ':' !in cipher && '#' !in cipher && '?' !in cipher && '@' !in cipher
  {}

  /** base64url has nothing to unquote, no padding, no colon. */
  lemma Base64Plain(s: string)
    requires Base64Url.AllReadable(s)
    ensures Unquote(s) == s && Unpadded(s) == s && ':' !in s && '#' !in s && '?' !in s
  {
    assert '%' !in s;
    UnquoteAfter(s, []);
    assert s + [] == s;
  }

  /** A shadowsocks link gives back the address, the port, the cipher and the secret: for several
      users, the server's key and the user's. */
  lemma ShadowsocksBack(l: Listener, server: string, i: int, onion: string, v: Option<Variant>, xray: bool)
    requires l.kind == Shadowsocks && Carried(l, server, i, onion, v) && GoodCipher(l.cipher)
    ensures ParseLink(BuildShareLink(l, server, i, onion, v).value, xray)
         == Some(ShadowsocksOut(Leads(l, server, onion, v).address, Leads(l, server, onion, v).port, l.cipher,
                                Secret(l, i)))
    ensures Secret(l, i) == if |l.users| > 1 then l.serverPassword + [':'] + l.users[i].secret else l.users[i].secret
  {
    hide Quote, Unquote, Endpoint, EndpointAddress, Leads, SharePort, Sni, Show, Label, GoodAddress, SsUserinfo,
        SsCredentials, Head;
    hide Body, ParseParts, Octets, OctetParams, ParsePort, ParseLink, FromBase64, Unpadded, GoodCipher;
    var address, port := Leads(l, server, onion, v).address, Leads(l, server, onion, v).port;
    LeadsThere(l, server, onion, v);
    var userinfo := SsUserinfo(l.cipher, Secret(l, i));
    var body := Body(userinfo, Endpoint(address, port), None, Quote(Label(l, i, onion, v)));
    SsUserinfoBack(l.cipher, Secret(l, i));
    PartsBack(userinfo, address, port, None, Quote(Label(l, i, onion, v)));
    assert (userinfo + ['@'] + Endpoint(address, port))[|userinfo|] == '@';
    PortBack(port);
    Dispatched(Shadowsocks, body, xray);
  }

  // ---- The label ----

  /** The label clients show: the listener's tag, the variant's name, the user's name or number, and
      whether it is the onion's. */
  lemma LabelBack(l: Listener, server: string, i: int, onion: string, v: Option<Variant>)
    requires Carried(l, server, i, onion, v) && GoodCipher(l.cipher)
    ensures var link := BuildShareLink(l, server, i, onion, v).value;
            var name := if l.users[i].name == [] then l.tag + "-" + Show(i) else l.users[i].name;
            Unquote(Tail(link, '#'))
            == l.tag + (if v.Some? then " " + v.value.name else []) + " (" + name
               + (if v == None && onion != [] then ", onion)" else ")")
  {
    hide Quote, Unquote, Endpoint, EndpointAddress, Leads, SharePort, Sni, Show, UrlEncode, LinkParams, GoodAddress,
        SsUserinfo, SsCredentials, Tail, Body, Octets, OctetParams, GoodCipher, Secret, Label;
    var lead, shown := Leads(l, server, onion, v), Label(l, i, onion, v);
    LeadsThere(l, server, onion, v);
    EndpointPlain(lead.address, lead.port);
    LabelIs(l, i, onion, v);
    if l.kind == Shadowsocks {
      SsUserinfoBack(l.cipher, Secret(l, i));
      FragmentBack(l.kind, SsUserinfo(l.cipher, Secret(l, i)), Endpoint(lead.address, lead.port), None, shown);
    } else {
      QuoteCoded(Secret(l, i));
      CodedPlain(Quote(Secret(l, i)), '#') by { DelimitersReserved(); }
      QueryPlain(LinkParams(l, server, v));
      FragmentBack(l.kind, Quote(Secret(l, i)), Endpoint(lead.address, lead.port),
                   Some(UrlEncode(LinkParams(l, server, v))),
                   shown);
    }
  }

  lemma LabelIs(l: Listener, i: nat, onion: string, v: Option<Variant>)
    requires i < |l.users|
    ensures var name := if l.users[i].name == [] then l.tag + "-" + Show(i) else l.users[i].name;
            Label(l, i, onion, v)
            == l.tag + (if v.Some? then " " + v.value.name else []) + " (" + name
               + (if v == None && onion != [] then ", onion)" else ")")
  {
    hide Show;
    assert ", onion)" == ", onion" + ")";
  }

  lemma FragmentBack(kind: Kind, userinfo: string, endpoint: string, query: Option<string>, shown: string)
    requires Octets(shown) && '#' !in userinfo && '#' !in endpoint && (query.Some? ==> '#' !in query.value)
    ensures Unquote(Tail(Scheme(kind) + Body(userinfo, endpoint, query, Quote(shown)), '#')) == shown
  {
    hide Quote, Unquote, Tail, Octets, Head;
    var rest := userinfo + ['@'] + endpoint + if query.Some? then ['?'] + query.value else [];
    SchemePlain(kind);
    assert Scheme(kind) + Body(userinfo, endpoint, query, Quote(shown)) == (Scheme(kind) + rest) + ['#'] + Quote(shown);
    HeadTail(Scheme(kind) + rest, '#', Quote(shown));
    UnquoteQuote(shown);
  }

  lemma SchemePlain(kind: Kind)
    ensures '#' !in Scheme(kind)
  {}

  // ---- Links others print ----

  function Padding(k: nat): string { seq(k, _ => '=') }

  lemma {:induction false} UnpaddedBack(s: string, k: nat)
    requires Unpadded(s) == s
    ensures Unpadded(s + Padding(k)) == s
    decreases k
  {
    var all := s + Padding(k);
    if k == 0 {
      assert all == s;
    } else {
      UnpaddedBack(s, k - 1);
      assert all[..|all| - 1] == s + Padding(k - 1) && all[|all| - 1] == '=';
    }
  }

  /** User information in base64 is read whatever padding it has. */
  lemma PaddedBack(cipher: string, secret: string, k: nat)
    requires Octets(cipher) && Octets(secret) && GoodCipher(cipher)
    ensures SsCredentials(Base64Url.Encode(cipher + [':'] + secret) + Padding(k)) == Some((cipher, secret))
  {
    hide Unquote, Head, Tail, Base64Url.Encode, Base64Url.Decode, Unpadded;
    var plain := cipher + [':'] + secret;
    var text := Base64Url.Encode(plain);
    CipherPlain(cipher);
    HeadTail(cipher, ':', secret);
    assert plain[|cipher|] == ':';
    Base64Url.DecodeEncode(plain);
    Base64Plain(text);
    PaddedPlain(text, k);
    UnpaddedBack(text, k);
  }

  lemma PaddedPlain(text: string, k: nat)
    requires Base64Url.AllReadable(text)
    ensures Unquote(text + Padding(k)) == text + Padding(k)
    ensures forall c :: c in {':', '#', '?', '@'} ==> c !in text + Padding(k)
  {
    hide Unquote;
    var all := text + Padding(k);
    assert '%' !in all;
    UnquoteAfter(all, []);
    UnquoteNone();
    assert all + [] == all;
  }

  lemma UnquoteNone()
    ensures Unquote([]) == []
  {}

  /** A whole link in base64 is read too; a password in it is unquoted, though nobody quotes it there. */
  lemma LegacyBack(cipher: string, secret: string, address: string, port: nat, k: nat, fragment: string)
    requires Octets(cipher) && Octets(secret) && Octets(address) && GoodCipher(cipher) && GoodAddress(address)
    requires 1 <= port <= 65535
    ensures var inner := cipher + [':'] + secret + ['@'] + Endpoint(address, port);
            Octets(inner)
            && ParseShadowsocks(Base64Url.Encode(inner) + Padding(k) + ['#'] + fragment)
               == Some(ShadowsocksOut(address, port, cipher, Unquote(secret)))
  {
    hide Unquote, Head, Tail, Front, Rest, Base64Url.Encode, Base64Url.Decode, Unpadded, Endpoint, GoodAddress, Show,
        SplitHostPort, ParsePort;
    EndpointOctets(address, port);
    var credentials := cipher + [':'] + secret;
    var inner := credentials + ['@'] + Endpoint(address, port);
    var text := Base64Url.Encode(inner);
    Base64Url.DecodeEncode(inner);
    Base64Plain(text);
    PaddedPlain(text, k);
    UnpaddedBack(text, k);
    HeadTail(text + Padding(k), '#', fragment);
    HeadAlone(text + Padding(k), '?');
    EndpointPlain(address, port);
    FrontRest(credentials, '@', Endpoint(address, port));
    assert inner[|credentials|] == '@';
    HostBack(address, port);
    PortBack(port);
    PlainCredentials(cipher, secret);
  }

  lemma PlainCredentials(cipher: string, secret: string)
    requires GoodCipher(cipher)
    ensures SsCredentials(cipher + [':'] + secret) == Some((cipher, Unquote(secret)))
  {
    hide Unquote, Head, Tail;
    CipherPlain(cipher);
    UnquoteAfter(cipher + [':'], secret);
    var plain := cipher + [':'] + Unquote(secret);
    assert plain[|cipher|] == ':';
    HeadTail(cipher, ':', Unquote(secret));
  }

  lemma EndpointOctets(address: string, port: nat)
    requires Octets(address)
    ensures Octets(Endpoint(address, port))
  {
    hide Show;
  }

  /** A lone port of a hop range is a range of one. */
  lemma LonePort(port: string)
    requires port != [] && AllDigits(port)
    ensures PortRange(port) == if 1 <= Read(port) <= 65535 then Some(Show(Read(port)) + [':'] + Show(Read(port)))
                               else None
  {
    hide Show, Read;
    assert '-' !in port;
    HeadAlone(port, '-');
  }

  /** Several ranges, joined by commas, are all read, and none if one of them cannot be. */
  lemma {:induction false} RangesBack(items: seq<string>)
    requires items != [] && forall i :: 0 <= i < |items| ==> ',' !in items[i] && Trim(items[i]) == items[i] != []
    ensures var ranges := PortRanges(Split(Join(items, ','), ','));
            (ranges.Some? <==> forall i :: 0 <= i < |items| ==> PortRange(items[i]).Some?)
            && (ranges.Some? ==> |ranges.value| == |items|
                                 && forall i :: 0 <= i < |items| ==> Some(ranges.value[i]) == PortRange(items[i]))
  {
    hide Trim, Split, Join, PortRange;
    SplitJoin(items, ',');
    EachRange(items);
  }

  lemma {:induction false} EachRange(items: seq<string>)
    requires forall i :: 0 <= i < |items| ==> Trim(items[i]) == items[i] != []
    ensures var ranges := PortRanges(items);
            (ranges.Some? <==> forall i :: 0 <= i < |items| ==> PortRange(items[i]).Some?)
            && (ranges.Some? ==> |ranges.value| == |items|
                                 && forall i :: 0 <= i < |items| ==> Some(ranges.value[i]) == PortRange(items[i]))
  {
    hide Trim, PortRange;
    if items != [] {
      EachRange(items[1..]);
      assert forall i :: 0 <= i < |items[1..]| ==> items[1..][i] == items[i + 1];
      assert forall i :: 1 <= i < |items| ==> items[i] == items[1..][i - 1];
    }
  }
}
