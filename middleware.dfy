/**
 * The request filters of internal/handler/middleware.go: the loopback-only
 * guard of the admin routes and the path filters in front of the archive and
 * asset file servers. Each filter either forwards the request to the wrapped
 * handler, with the response headers it has set so far, or answers itself.
 */
module Middleware {
  import opened Wrappers
  import Http

  datatype Outcome = Forward(headers: Http.Headers) | Respond(reply: Http.Reply<()>)

  function HeadersOf(o: Outcome): Http.Headers {
    match o
    case Forward(h) => h
    case Respond(r) => r.headers
  }

  // ---------------------------------------------------------------- string helpers

  function IndexOf(s: string, c: char): (i: int)
    ensures -1 <= i < |s|
    ensures i >= 0 ==> s[i] == c && forall j :: 0 <= j < i ==> s[j] != c
    ensures i < 0 <==> c !in s
  {
    if s == [] then -1
    else if s[0] == c then 0
    else
      var k := IndexOf(s[1..], c);
      if k < 0 then -1 else k + 1
  }

  function LastIndexOf(s: string, c: char): (i: int)
    ensures -1 <= i < |s|
    ensures i >= 0 ==> s[i] == c && forall j :: i < j < |s| ==> s[j] != c
    ensures i < 0 <==> c !in s
  {
    if s == [] then -1
    else if s[|s| - 1] == c then |s| - 1
    else LastIndexOf(s[..|s| - 1], c)
  }

  predicate EndsWith(s: string, suffix: string) {
    |suffix| <= |s| && s[|s| - |suffix|..] == suffix
  }

  /** strings.ToLower on one character; only ASCII letters are modelled. */
  function LowerChar(c: char): char {
    if 'A' <= c <= 'Z' then (c as int - 'A' as int + 'a' as int) as char else c
  }

  function AsciiLower(s: string): string {
    seq(|s|, i requires 0 <= i < |s| => LowerChar(s[i]))
  }

  /**
   * path/filepath's Ext on a slash-separated path: the suffix from the last '.'
   * of the last path element, or "" when that element has no '.'.
   */
  function Ext(path: string): (e: string)
    ensures |e| <= |path| && e == path[|path| - |e|..]
    ensures e != "" ==> e[0] == '.' && forall k :: 1 <= k < |e| ==> e[k] != '.' && e[k] != '/'
    ensures e == "" ==> forall k :: 0 <= k < |path| && path[k] == '.' ==> exists j :: k < j < |path| && path[j] == '/'
  {
    if path == [] || path[|path| - 1] == '/' then ""
    else if path[|path| - 1] == '.' then "."
    else
      var e := Ext(path[..|path| - 1]);
      if e == "" then "" else e + [path[|path| - 1]]
  }

  // ---------------------------------------------------------------- net.SplitHostPort

  /**
   * net.SplitHostPort: the port follows the last ':'; a host containing ':'
   * must be bracketed, and the brackets must enclose exactly the host. Every
   * error is `None` (the filter does not distinguish them).
   */
  function SplitHostPort(hostport: string): Option<(string, string)> {
    var i := LastIndexOf(hostport, ':');
    if i < 0 then None
    else if hostport[0] == '[' then SplitBracketedAt(hostport, i)
    else SplitPlainAt(hostport, i)
  }

  /** A bracketed host: the first ']' must come just before the last ':'. */
  function SplitBracketedAt(hostport: string, i: int): Option<(string, string)>
    requires 0 <= i < |hostport| && hostport[0] == '['
  {
    var end := IndexOf(hostport, ']');
    if end < 0 || end + 1 != i then None
    else if '[' in hostport[1..] || ']' in hostport[end + 1..] then None
    else Some((hostport[1..end], hostport[i + 1..]))
  }

  /** An unbracketed host: no other ':' and no brackets anywhere. */
  function SplitPlainAt(hostport: string, i: int): Option<(string, string)>
    requires 0 <= i < |hostport|
  {
    var host := hostport[..i];
    if ':' in host || '[' in hostport || ']' in hostport then None
    else Some((host, hostport[i + 1..]))
  }

  /** net.JoinHostPort: brackets a host that contains ':'. */
  function JoinHostPort(host: string, port: string): string {
    if ':' in host then "[" + host + "]" + ":" + port else host + ":" + port
  }

  lemma SplitBracketedSound(hostport: string)
    requires SplitHostPort(hostport).Some? && hostport[0] == '['
    ensures var (host, port) := SplitHostPort(hostport).value;
      hostport == "[" + host + "]" + ":" + port && '[' !in host && ']' !in host && ':' !in port && ']' !in port
  {
    var i := LastIndexOf(hostport, ':');
    var end := IndexOf(hostport, ']');
    var host := hostport[1..end];
    var port := hostport[i + 1..];
    assert hostport == [hostport[0]] + host + [hostport[end]] + [hostport[i]] + port;
    assert host == hostport[1..][..end - 1];
    assert port == hostport[end + 1..][1..];
  }

  lemma SplitPlainSound(hostport: string)
    requires SplitHostPort(hostport).Some? && hostport[0] != '['
    ensures var (host, port) := SplitHostPort(hostport).value;
      hostport == host + ":" + port && '[' !in host && ']' !in host && ':' !in port && ']' !in port
  {
    var i := LastIndexOf(hostport, ':');
    assert hostport == hostport[..i] + [hostport[i]] + hostport[i + 1..];
  }

  /** A split address is the host and port joined by ':', with the host bracketed or not. */
  lemma SplitHostPortSound(hostport: string)
    ensures SplitHostPort(hostport).Some? ==>
      var (host, port) := SplitHostPort(hostport).value;
      && (hostport == host + ":" + port || hostport == "[" + host + "]" + ":" + port)
      && '[' !in host && ']' !in host && ':' !in port && ']' !in port
  {
    if SplitHostPort(hostport).Some? {
      if hostport[0] == '[' {
        SplitBracketedSound(hostport);
      } else {
        SplitPlainSound(hostport);
      }
    }
  }

  lemma {:induction false} LastIndexOfBefore(a: string, c: char, b: string)
    requires c !in b
    ensures LastIndexOf(a + [c] + b, c) == |a|
  {
    var s := a + [c] + b;
    if b != [] {
      assert s[..|s| - 1] == a + [c] + b[..|b| - 1];
      LastIndexOfBefore(a, c, b[..|b| - 1]);
    }
  }

  lemma {:induction false} IndexOfLast(a: string, c: char)
    requires c !in a
    ensures IndexOf(a + [c], c) == |a|
  {
    if a != [] {
      assert (a + [c])[1..] == a[1..] + [c];
      IndexOfLast(a[1..], c);
    }
  }

  lemma {:induction false} IndexOfExtend(a: string, b: string, c: char)
    requires c in a
    ensures IndexOf(a + b, c) == IndexOf(a, c)
  {
    if a[0] != c {
      assert (a + b)[1..] == a[1..] + b;
      IndexOfExtend(a[1..], b, c);
    }
  }

  lemma SplitBracketedAtOk(s: string, end: int)
    requires 0 < end && end + 1 < |s| && s[0] == '[' && s[end + 1] == ':'
    requires IndexOf(s, ']') == end
    requires forall k :: 1 <= k < |s| ==> s[k] != '['
    requires forall k :: end < k < |s| ==> s[k] != ']'
    ensures SplitBracketedAt(s, end + 1) == Some((s[1..end], s[end + 2..]))
  {
    assert '[' !in s[1..];
    assert ']' !in s[end + 1..];
  }

  lemma SplitBracketed(host: string, port: string)
    requires '[' !in host && ']' !in host
    requires ':' !in port && '[' !in port && ']' !in port
    ensures SplitHostPort("[" + host + "]" + ":" + port) == Some((host, port))
  {
    var x := "[" + host;
    var s := x + "]" + ":" + port;
    var n := |host|;
    LastIndexOfBefore(x + "]", ':', port);
    IndexOfLast(x, ']');
    IndexOfExtend(x + "]", ":", ']');
    IndexOfExtend(x + "]" + ":", port, ']');
    forall k | 1 <= k < |s| ensures s[k] != '[' && (n + 1 < k ==> s[k] != ']') {
      if k <= n { assert s[k] == host[k - 1]; }
      else if k >= n + 3 { assert s[k] == port[k - n - 3]; }
    }
    SplitBracketedAtOk(s, n + 1);
    assert s[1..n + 1] == host;
    assert s[n + 3..] == port;
  }

  lemma SplitPlain(host: string, port: string)
    requires ':' !in host && '[' !in host && ']' !in host
    requires ':' !in port && '[' !in port && ']' !in port
    ensures SplitHostPort(host + ":" + port) == Some((host, port))
  {
    var s := host + ":" + port;
    LastIndexOfBefore(host, ':', port);
    assert s[..|host|] == host;
    assert s[|host| + 1..] == port;
    assert forall k :: 0 <= k < |host| ==> s[k] == host[k];
    assert forall k :: |host| < k < |s| ==> s[k] == port[k - |host| - 1];
  }

  /** Splitting what JoinHostPort built gives back the host and the port. */
  lemma SplitJoinRoundTrip(host: string, port: string)
    requires '[' !in host && ']' !in host
    requires ':' !in port && '[' !in port && ']' !in port
    ensures SplitHostPort(JoinHostPort(host, port)) == Some((host, port))
  {
    if ':' in host {
      SplitBracketed(host, port);
    } else {
      SplitPlain(host, port);
    }
  }

  // ---------------------------------------------------------------- LocalOnly

  const Loopback: set<string> := {"127.0.0.1", "::1", "localhost"}

  /** LocalOnly: forwards only requests whose remote host is a loopback name. */
  function LocalOnly(remoteAddr: string, h: Http.Headers): (o: Outcome)
    ensures o.Forward? <==> SplitHostPort(remoteAddr).Some? && SplitHostPort(remoteAddr).value.0 in Loopback
    ensures o.Forward? ==> o.headers == h
    ensures SplitHostPort(remoteAddr).None? ==> o == Respond(Http.Error(h, "Invalid request", Http.StatusBadRequest))
    ensures SplitHostPort(remoteAddr).Some? && o.Respond? ==>
      o.reply.status == Http.StatusForbidden && o.reply.body == Http.Text("Access denied\n")
  {
    match SplitHostPort(remoteAddr)
    case None => Respond(Http.Error(h, "Invalid request", Http.StatusBadRequest))
    case Some((ip, _)) =>
      if ip != "127.0.0.1" && ip != "::1" && ip != "localhost" then
        Respond(Http.Error(h, "Access denied", Http.StatusForbidden))
      else Forward(h)
  }

  /** For an address as the server reports it, only the host decides. */
  lemma LocalOnlyByHost(host: string, port: string, h: Http.Headers)
    requires '[' !in host && ']' !in host
    requires ':' !in port && '[' !in port && ']' !in port
    ensures LocalOnly(JoinHostPort(host, port), h).Forward? <==> host in Loopback
    ensures host !in Loopback ==> LocalOnly(JoinHostPort(host, port), h).reply.status == Http.StatusForbidden
  {
    SplitJoinRoundTrip(host, port);
  }

  /** An address with no port separator is a bad request. */
  lemma LocalOnlyNeedsPort(remoteAddr: string, h: Http.Headers)
    requires ':' !in remoteAddr
    ensures LocalOnly(remoteAddr, h) == Respond(Http.Error(h, "Invalid request", Http.StatusBadRequest))
  {
  }

  // ---------------------------------------------------------------- the file-server filters

  function SecurityHeaders(h: Http.Headers): Http.Headers {
    h["X-Content-Type-Options" := "nosniff"]["X-Frame-Options" := "DENY"]["X-XSS-Protection" := "1; mode=block"]
  }

  predicate HasSecurityHeaders(h: Http.Headers) {
    && "X-Content-Type-Options" in h && h["X-Content-Type-Options"] == "nosniff"
    && "X-Frame-Options" in h && h["X-Frame-Options"] == "DENY"
    && "X-XSS-Protection" in h && h["X-XSS-Protection"] == "1; mode=block"
  }

  /** SecureFileServer: only non-directory paths ending in ".zip" in any letter case reach the archive files. */
  function SecureFileServer(path: string, h: Http.Headers): (o: Outcome)
    ensures o.Forward? <==> !EndsWith(path, "/") && EndsWith(AsciiLower(path), ".zip")
    ensures HasSecurityHeaders(HeadersOf(o))
    ensures "Content-Disposition" in HeadersOf(o) && HeadersOf(o)["Content-Disposition"] == "attachment"
    ensures o.Respond? ==> o.reply.status == Http.StatusNotFound && o.reply.body == Http.Text("Not Found\n")
  {
    var hs := SecurityHeaders(h)["Content-Disposition" := "attachment"];
    if EndsWith(path, "/") then Respond(Http.Error(hs, "Not Found", Http.StatusNotFound))
    else if !EndsWith(AsciiLower(path), ".zip") then Respond(Http.Error(hs, "Not Found", Http.StatusNotFound))
    else Forward(hs)
  }

  /** The characters strings.ToLower maps to a given lower-case letter or to '.'. */
  lemma LowerCharInverse(c: char)
    ensures LowerChar(c) == '.' <==> c == '.'
    ensures LowerChar(c) == 'z' <==> c == 'z' || c == 'Z'
    ensures LowerChar(c) == 'i' <==> c == 'i' || c == 'I'
    ensures LowerChar(c) == 'p' <==> c == 'p' || c == 'P'
  {
  }

  lemma EndsWithFour(l: string, a: char, b: char, c: char, d: char)
    requires |l| >= 4
    ensures EndsWith(l, [a, b, c, d]) <==> l[|l| - 4] == a && l[|l| - 3] == b && l[|l| - 2] == c && l[|l| - 1] == d
  {
    var t := l[|l| - 4..];
    assert t[0] == l[|l| - 4] && t[1] == l[|l| - 3] && t[2] == l[|l| - 2] && t[3] == l[|l| - 1];
  }

  /** The lower-cased ".zip" test, letter by letter. */
  lemma ZipSuffixAnyCase(path: string)
    ensures EndsWith(AsciiLower(path), ".zip") <==>
      && |path| >= 4
      && path[|path| - 4] == '.'
      && (path[|path| - 3] == 'z' || path[|path| - 3] == 'Z')
      && (path[|path| - 2] == 'i' || path[|path| - 2] == 'I')
      && (path[|path| - 1] == 'p' || path[|path| - 1] == 'P')
  {
    var n := |path|;
    if n >= 4 {
      LowerCharInverse(path[n - 4]);
      LowerCharInverse(path[n - 3]);
      LowerCharInverse(path[n - 2]);
      LowerCharInverse(path[n - 1]);
      EndsWithFour(AsciiLower(path), '.', 'z', 'i', 'p');
    }
  }

  /** SecureAssetsServer: only ".json" and ".jpg" files, in any letter case, with the matching content type. */
  function SecureAssetsServer(path: string, h: Http.Headers): (o: Outcome)
    ensures o.Forward? <==> !EndsWith(path, "/") && (AsciiLower(Ext(path)) == ".json" || AsciiLower(Ext(path)) == ".jpg")
    ensures o.Forward? ==>
      && "Content-Type" in o.headers
      && o.headers["Content-Type"] == (if AsciiLower(Ext(path)) == ".json" then "application/json" else "image/jpeg")
    ensures HasSecurityHeaders(HeadersOf(o))
    ensures o.Respond? ==> o.reply.status == Http.StatusNotFound && o.reply.body == Http.Text("Not Found\n")
  {
    var hs := SecurityHeaders(h);
    if EndsWith(path, "/") then Respond(Http.Error(hs, "Not Found", Http.StatusNotFound))
    else
      var ext := AsciiLower(Ext(path));
      if ext != ".json" && ext != ".jpg" then Respond(Http.Error(hs, "Not Found", Http.StatusNotFound))
      else if ext == ".json" then Forward(hs["Content-Type" := "application/json"])
      else Forward(hs["Content-Type" := "image/jpeg"])
  }

  /** An ordinary last character extends a non-empty extension. */
  lemma ExtStep(path: string)
    requires path != [] && path[|path| - 1] != '.' && path[|path| - 1] != '/'
    requires Ext(path[..|path| - 1]) != []
    ensures Ext(path) == Ext(path[..|path| - 1]) + [path[|path| - 1]]
  {
  }

  /** A tail that starts with '.' and holds no other '.' or '/' is the extension of any path it ends. */
  lemma {:induction false} ExtOfTail(front: string, tail: string)
    requires |tail| > 0 && tail[0] == '.'
    requires forall k :: 1 <= k < |tail| ==> tail[k] != '.' && tail[k] != '/'
    ensures Ext(front + tail) == tail
  {
    var p := front + tail;
    if |tail| > 1 {
      var t := tail[..|tail| - 1];
      ExtOfTail(front, t);
      assert p[..|p| - 1] == front + t;
      ExtStep(p);
      assert t + [tail[|tail| - 1]] == tail;
    }
  }

  lemma LowerSuffix(s: string, m: nat)
    requires m <= |s|
    ensures AsciiLower(s)[|s| - m..] == AsciiLower(s[|s| - m..])
  {
  }

  lemma LowerExtIsSuffix(path: string)
    ensures EndsWith(AsciiLower(path), AsciiLower(Ext(path)))
  {
    LowerSuffix(path, |Ext(path)|);
  }

  lemma TakeDrop(s: string, i: int)
    requires 0 <= i <= |s|
    ensures s[..i] + s[i..] == s
  {
  }

  /** A string whose lower-case form is such an extension has the shape of an extension itself. */
  lemma LowerTailShape(t: string, e: string)
    requires |e| > 0 && e[0] == '.' && forall k :: 1 <= k < |e| ==> 'a' <= e[k] <= 'z'
    requires AsciiLower(t) == e
    ensures |t| == |e| && t[0] == '.'
    ensures forall k :: 1 <= k < |t| ==> t[k] != '.' && t[k] != '/'
  {
    forall k | 0 <= k < |t| ensures LowerChar(t[k]) == e[k] {
    }
  }

  lemma SuffixIsLowerExt(path: string, e: string)
    requires |e| > 0 && e[0] == '.' && forall k :: 1 <= k < |e| ==> 'a' <= e[k] <= 'z'
    requires EndsWith(AsciiLower(path), e)
    ensures AsciiLower(Ext(path)) == e
  {
    var n, m := |path|, |e|;
    var tail := path[n - m..];
    LowerSuffix(path, m);
    assert AsciiLower(tail) == e;
    LowerTailShape(tail, e);
    ExtOfTail(path[..n - m], tail);
    TakeDrop(path, n - m);
    assert Ext(path) == tail;
  }

  /** The lower-cased extension is `e` exactly when the lower-cased path ends with `e`. */
  lemma ExtensionIsSuffix(path: string, e: string)
    requires |e| > 0 && e[0] == '.' && forall k :: 1 <= k < |e| ==> 'a' <= e[k] <= 'z'
    ensures AsciiLower(Ext(path)) == e <==> EndsWith(AsciiLower(path), e)
  {
    LowerExtIsSuffix(path);
    if EndsWith(AsciiLower(path), e) {
      SuffixIsLowerExt(path, e);
    }
  }

  lemma AssetExtIsSuffix(path: string)
    ensures var x := AsciiLower(Ext(path));
      (x == ".json" || x == ".jpg") <==> EndsWith(AsciiLower(path), ".json") || EndsWith(AsciiLower(path), ".jpg")
  {
    ExtensionIsSuffix(path, ".json");
    ExtensionIsSuffix(path, ".jpg");
  }

  /**
   * The asset filter forwards exactly the non-directory paths whose lower-cased
   * form ends in ".json" or ".jpg"; in particular ".jpeg" is refused.
   */
  lemma AssetsForwardIffSuffix(path: string, h: Http.Headers)
    ensures SecureAssetsServer(path, h).Forward? <==>
      !EndsWith(path, "/") && (EndsWith(AsciiLower(path), ".json") || EndsWith(AsciiLower(path), ".jpg"))
  {
    AssetExtIsSuffix(path);
  }

  lemma JpegRefused(path: string, h: Http.Headers)
    requires EndsWith(AsciiLower(path), ".jpeg")
    ensures SecureAssetsServer(path, h).Respond?
  {
    AssetsForwardIffSuffix(path, h);
    var l := AsciiLower(path);
    var n := |l|;
    assert l[n - 5..] == ".jpeg";
    assert l[n - 4..][0] == 'j';
    assert l[n - 4..] != ".jpg";
    assert l[n - 5..][2] == 'p';
    assert l[n - 5..] != ".json";
  }
}
