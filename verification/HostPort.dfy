/**
 src/common/host_port.cc: joining and splitting host and port.  Strings are NUL-free, so a
 C string's first character is absent exactly when the string is empty.
 */
module HostPort {
  import opened Wrappers

  // printf's %d.
  function Digits(n: nat): (d: string)
    ensures |d| > 0 && forall c :: c in d ==> '0' <= c <= '9'
  {
    if n < 10 then [('0' as int + n) as char] else Digits(n / 10) + [('0' as int + n % 10) as char]
  }

  function Decimal(n: int): (d: string)
    ensures |d| > 0 && forall c :: c in d ==> '0' <= c <= '9' || c == '-'
  {
    if n < 0 then "-" + Digits(-n) else Digits(n)
  }

  // The number a text of digits stands for, read from the left behind a value `sofar`.
  function ReadDigits(sofar: int, s: string): int
    decreases |s|
  {
    if s == [] then sofar else ReadDigits(sofar * 10 + (s[0] as int - '0' as int), s[1..])
  }

  // The same with a sign allowed in front.
  function ReadNumber(s: string): int {
    if s != [] && s[0] == '-' then -ReadDigits(0, s[1..]) else ReadDigits(0, s)
  }

  lemma {:induction false} ReadLast(sofar: int, s: string, c: char)
    ensures ReadDigits(sofar, s + [c]) == ReadDigits(sofar, s) * 10 + (c as int - '0' as int)
    decreases |s|
  {
    if s == [] {
      assert s + [c] == [c] && [c][1..] == [];
    } else {
      assert (s + [c])[1..] == s[1..] + [c];
      ReadLast(sofar * 10 + (s[0] as int - '0' as int), s[1..], c);
    }
  }

  lemma {:induction false} DigitsRead(n: nat)
    ensures ReadDigits(0, Digits(n)) == n
    ensures Digits(n)[0] == '0' ==> Digits(n) == "0"
    decreases n
  {
    if n < 10 {
      assert Digits(n)[1..] == [];
    } else {
      DigitsRead(n / 10);
      ReadLast(0, Digits(n / 10), ('0' as int + n % 10) as char);
    }
  }

  /** The decimal text of a number reads back as the number, with a sign in front exactly if
      it is negative and no leading zero but in "0". */
  lemma DecimalRead(n: int)
    ensures forall i :: 0 <= i < |Decimal(n)| ==> '0' <= Decimal(n)[i] <= '9' || (i == 0 && Decimal(n)[i] == '-')
    ensures ReadNumber(Decimal(n)) == n
    ensures Decimal(n)[0] == '-' <==> n < 0
    ensures Decimal(n)[0] == '0' ==> Decimal(n) == "0"
    ensures n < 0 ==> Decimal(n)[1] != '0'
  {
    var d := Digits(if n < 0 then -n else n);
    DigitsRead(if n < 0 then -n else n);
    forall i | 0 <= i < |d| ensures '0' <= d[i] <= '9' { assert d[i] in d; }
    if n < 0 { assert Decimal(n) == ['-'] + d && Decimal(n)[1..] == d; }
  }

  // strchr / StringView::find: the first place at or after `from`, or the length.
  function Find(s: string, c: char, from: nat): (k: nat)
    requires from <= |s|
    ensures from <= k <= |s|
    ensures k < |s| ==> s[k] == c
    ensures forall i :: from <= i < k ==> s[i] != c
    decreases |s| - from
  {
    if from == |s| || s[from] == c then from else Find(s, c, from + 1)
  }

  function JoinHostPort(host: string, port: int): string {
    if !(host != [] && host[0] == '[') && Find(host, ':', 0) < |host|
    then "[" + host + "]:" + Decimal(port)
    else host + ":" + Decimal(port)
  }

  // What a split answers, and its two outputs with whether the port was given.
  datatype Outputs = Outputs(ok: bool, host: string, port: string, hasPort: bool)

  // The outputs hold `host0` and `port0` until they are written.
  function WriteParts(name: string, host0: string, port0: string): Outputs {
    if name != [] && name[0] == '[' then
      var rbracket := Find(name, ']', 1);
      if rbracket == |name| then Outputs(false, host0, port0, false)
      else
        var end, colon := rbracket == |name| - 1, rbracket + 1 < |name| && name[rbracket + 1] == ':';
        if !end && !colon then Outputs(false, host0, port0, false)
        else
          var port := if end then "" else name[rbracket + 2..];
          var host := name[1..rbracket];
          if Find(host, ':', 0) == |host| then Outputs(false, "", port, !end)
          else Outputs(true, host, port, !end)
    else
      var colon := Find(name, ':', 0);
      if colon < |name| && Find(name, ':', colon + 1) == |name|
      then Outputs(true, name[..colon], name[colon + 1..], true)
      else Outputs(true, name, "", false)
  }

  // Host, and the port if there is one.
  datatype Parts = Parts(host: string, port: Option<string>)

  // What a split finds.
  function DoSplitHostPort(name: string): Option<Parts> {
    var r := WriteParts(name, "", "");
    if r.ok then Some(Parts(r.host, if r.hasPort then Some(r.port) else None)) else None
  }

  predicate Bracketed(host: string) {
    host != [] && host[0] == '['
  }

  // The first occurrence is where Find stops.
  lemma FindFirst(s: string, c: char, from: nat, k: nat)
    requires from <= k <= |s| && (k < |s| ==> s[k] == c)
    requires forall i :: from <= i < k ==> s[i] != c
    ensures Find(s, c, from) == k
  {
  }

  lemma FindMember(s: string, c: char)
    ensures Find(s, c, 0) < |s| <==> c in s
  {
  }

  // "[" + host + "]" + rest, read back.
  lemma SplitBracketed(host: string, rest: string)
    requires ']' !in host
    ensures var name := "[" + host + "]" + rest;
            DoSplitHostPort(name) ==
              if ':' !in host || (rest != "" && rest[0] != ':') then None
              else Some(Parts(host, if rest == "" then None else Some(rest[1..])))
  {
    var name := "[" + host + "]" + rest;
    FindFirst(name, ']', 1, |host| + 1);
    assert name[1..|host| + 1] == host;
    FindMember(host, ':');
    if rest != "" { assert name[|host| + 3..] == rest[1..]; }
  }

  // host + ":" + port, read back.
  lemma SplitPlain(host: string, port: string)
    requires !Bracketed(host) && ':' !in host && ':' !in port
    ensures DoSplitHostPort(host + ":" + port) == Some(Parts(host, Some(port)))
  {
    var name := host + ":" + port;
    FindFirst(name, ':', 0, |host|);
    FindFirst(name, ':', |host| + 1, |name|);
    assert name[..|host|] == host && name[|host| + 1..] == port;
  }

  /** A host with a colon that is not bracketed yet is put in brackets; any other is joined as
      it is, a bracketed one with its brackets. */
  lemma JoinText(host: string, port: int)
    ensures Bracketed(host) || ':' !in host ==> JoinHostPort(host, port) == host + ":" + Decimal(port)
    ensures !Bracketed(host) && ':' in host ==> JoinHostPort(host, port) == "[" + host + "]:" + Decimal(port)
  {
    FindMember(host, ':');
  }

  /** Joining and splitting again gives back host and port exactly when the host is not
      already bracketed and does not contain both a colon and a closing bracket. */
  lemma SplitOfJoin(host: string, port: int)
    ensures (DoSplitHostPort(JoinHostPort(host, port)) == Some(Parts(host, Some(Decimal(port)))))
            <==> !Bracketed(host) && !(':' in host && ']' in host)
  {
    var d, name := Decimal(port), JoinHostPort(host, port);
    FindMember(host, ':');
    if Bracketed(host) {
      assert name[|host| + 1] == d[0];
    } else if ':' !in host {
      SplitPlain(host, d);
    } else if ']' !in host {
      SplitBracketed(host, ":" + d);
      assert name == "[" + host + "]" + (":" + d);
    } else {
      var k :| 0 <= k < |host| && host[k] == ']';
      assert name[k + 1] == ']';
    }
  }

  ghost predicate OneColon(s: string) {
    exists k :: 0 <= k < |s| && s[k] == ':' && ':' !in s[..k] && ':' !in s[k + 1..]
  }

  // The four shapes a name can have.
  ghost predicate Shape(name: string, p: Parts) {
    match p.port
    case None =>
      || (name == "[" + p.host + "]" && ':' in p.host && ']' !in p.host)
      || (name == p.host && !Bracketed(name) && !OneColon(name))
    case Some(port) =>
      || (name == "[" + p.host + "]:" + port && ':' in p.host && ']' !in p.host)
      || (name == p.host + ":" + port && !Bracketed(name) && ':' !in p.host && ':' !in port)
  }

  // The two searches of the unbracketed case find exactly one colon.
  lemma OneColonExact(name: string)
    ensures OneColon(name) <==> var c := Find(name, ':', 0); c < |name| && Find(name, ':', c + 1) == |name|
  {
    var c := Find(name, ':', 0);
    if c < |name| && Find(name, ':', c + 1) == |name| {
      assert name[c] == ':' && ':' !in name[..c] && ':' !in name[c + 1..];
    }
    if k :| 0 <= k < |name| && name[k] == ':' && ':' !in name[..k] && ':' !in name[k + 1..] {
      forall i | 0 <= i < k ensures name[i] != ':' { assert name[..k][i] == name[i]; }
      forall i | k < i < |name| ensures name[i] != ':' { assert name[k + 1..][i - k - 1] == name[i]; }
      FindFirst(name, ':', 0, k);
      FindFirst(name, ':', k + 1, |name|);
    }
  }

  lemma SplitHasShape(name: string, p: Parts)
    requires DoSplitHostPort(name) == Some(p)
    ensures Shape(name, p)
  {
    if Bracketed(name) {
      var rb := Find(name, ']', 1);
      FindMember(p.host, ':');
      assert name[..rb + 1] == "[" + p.host + "]";
      if p.port.None? {
        assert name == name[..rb + 1];
      } else {
        assert name == name[..rb + 1] + ":" + p.port.value;
      }
    } else if p.port.Some? {
      var colon := Find(name, ':', 0);
      assert name == name[..colon] + ":" + name[colon + 1..];
    } else {
      OneColonExact(name);
    }
  }

  lemma ShapeSplits(name: string, p: Parts)
    requires Shape(name, p)
    ensures DoSplitHostPort(name) == Some(p)
  {
    if Bracketed(name) {
      var rest := if p.port.None? then "" else ":" + p.port.value;
      assert name == "[" + p.host + "]" + rest;
      SplitBracketed(p.host, rest);
    } else if p.port.Some? {
      if p.host != "" { assert name[0] == p.host[0]; }
      SplitPlain(p.host, p.port.value);
    } else {
      OneColonExact(name);
    }
  }

  /** A name splits into host and port exactly when it is `[host]`, `[host]:port`, `host` or
      `host:port`, the brackets (section 3.2.2 of RFC 3986) holding a host with a colon. */
  lemma SplitShapes(name: string, p: Parts)
    ensures (DoSplitHostPort(name) == Some(p)) <==> Shape(name, p)
  {
    if DoSplitHostPort(name) == Some(p) { SplitHasShape(name, p); }
    if Shape(name, p) { ShapeSplits(name, p); }
  }

  // SplitHostPort into views: both are cleared first.
  function SplitViews(name: string): Outputs {
    WriteParts(name, "", "")
  }

  // SplitHostPort into new C strings; a null pointer is None.
  datatype Copies = Copies(ok: bool, host: Option<string>, port: Option<string>)

  function SplitCopies(name: string, host0: Option<string>, port0: Option<string>): Copies {
    var r := WriteParts(name, "", "");
    if r.ok then Copies(true, Some(r.host), if r.hasPort then Some(r.port) else port0)
    else Copies(false, host0, port0)
  }

  // A bracketed name without a colon inside and with a port behind.
  ghost predicate PortOnly(name: string, h: string, p: string) {
    name == "[" + h + "]:" + p && ':' !in h && ']' !in h && p != ""
  }

  /** A failed split into views always clears the host.  It clears the port too, as its
      header promises, unless the name is `[h]:p` with neither colon nor closing bracket in h. */
  lemma FailedViews(name: string)
    requires !SplitViews(name).ok
    ensures SplitViews(name).host == ""
    ensures SplitViews(name).port != "" <==> exists h, p :: PortOnly(name, h, p)
  {
    var rb := Find(name, ']', 1);
    if SplitViews(name).port != "" {
      var h, p := name[1..rb], name[rb + 2..];
      FindMember(h, ':');
      assert name == "[" + h + "]:" + p;
      assert PortOnly(name, h, p);
    }
    if h, p :| PortOnly(name, h, p) {
      FindFirst(name, ']', 1, |h| + 1);
      assert name[1..|h| + 1] == h && name[|h| + 3..] == p;
      FindMember(h, ':');
    }
  }

  /** The variant with C strings clears nothing: a failed split leaves both outputs as they
      were, so they are clear afterwards exactly if they were before, and a split without a
      port leaves the port as it was. */
  lemma CopiesKeepOldOutputs(name: string, host0: Option<string>, port0: Option<string>)
    ensures var r := SplitCopies(name, host0, port0);
            && (r.ok <==> exists p :: Shape(name, p))
            && (!r.ok ==> r.host == host0 && r.port == port0)
            && (forall p :: Shape(name, p) ==>
                  r.host == Some(p.host) && r.port == if p.port.Some? then p.port else port0)
  {
    if DoSplitHostPort(name).Some? { SplitShapes(name, DoSplitHostPort(name).value); }
    forall p | Shape(name, p)
      ensures DoSplitHostPort(name) == Some(p)
    {
      SplitShapes(name, p);
    }
  }
}
