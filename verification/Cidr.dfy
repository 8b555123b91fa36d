// Which hosts bypass the proxy: address blocks, addresses and domain suffixes.
module Cidr {
  import opened Wrappers
  import opened Bits
  import opened Text

  datatype Ip = V4(addr: nat) | V6(addr: nat)

  function Width(ip: Ip): nat {
    if ip.V4? then 32 else 128
  }

  predicate IpOk(ip: Ip) {
    ip.addr < Pow2(Width(ip))
  }

  // Bitwise and.
  function And(v: nat, w: nat): nat {
    if v == 0 || w == 0 then 0 else 2 * And(v / 2, w / 2) + (if v % 2 == 1 && w % 2 == 1 then 1 else 0)
  }

  // All ones shifted left in a word of the given width.
  function Mask(width: nat, shift: nat): nat {
    Low(Shl(Pow2(width) - 1, shift), width)
  }

  predicate InCidr(ip: Ip, net: Ip, prefix: nat) {
    ip.V4? == net.V4? && prefix <= Width(ip) &&
    (prefix == 0 ||
     And(ip.addr, Mask(Width(ip), Width(ip) - prefix)) == And(net.addr, Mask(Width(ip), Width(ip) - prefix)))
  }

  // ---- the mask keeps the high part ----

  lemma MaskValue(width: nat, shift: nat)
    requires shift <= width
    ensures Mask(width, shift) == Shl(Pow2(width - shift) - 1, shift)
  {
    LowShl(Pow2(width) - 1, width, shift);
    LowOnes(width, width - shift);
  }

  lemma {:induction false} LowOnes(m: nat, n: nat)
    requires n <= m
    ensures Low(Pow2(m) - 1, n) == Pow2(n) - 1
  {
    if n != 0 {
      assert (Pow2(m) - 1) / 2 == Pow2(m - 1) - 1 && (Pow2(m) - 1) % 2 == 1;
      LowOnes(m - 1, n - 1);
    }
  }

  lemma {:induction false} AndOnes(v: nat, n: nat)
    requires v < Pow2(n)
    ensures And(v, Pow2(n) - 1) == v
  {
    if n != 0 {
      assert (Pow2(n) - 1) / 2 == Pow2(n - 1) - 1 && (Pow2(n) - 1) % 2 == 1;
      AndOnes(v / 2, n - 1);
      AndStep(v, Pow2(n) - 1);
    }
  }

  lemma AndStep(v: nat, w: nat)
    ensures And(v, w) == 2 * And(v / 2, w / 2) + (if v % 2 == 1 && w % 2 == 1 then 1 else 0)
  {
  }

  lemma {:induction false} AndHigh(v: nat, n: nat, shift: nat)
    requires v < Pow2(n + shift)
    ensures And(v, Shl(Pow2(n) - 1, shift)) == Shl(Shr(v, shift), shift)
  {
    var mask := Shl(Pow2(n) - 1, shift);
    if shift == 0 {
      AndOnes(v, n);
    } else {
      assert mask / 2 == Shl(Pow2(n) - 1, shift - 1) && mask % 2 == 0;
      AndHigh(v / 2, n, shift - 1);
      AndStep(v, mask);
    }
  }

  lemma {:induction false} ShlInjective(v: nat, w: nat, n: nat)
    ensures Shl(v, n) == Shl(w, n) <==> v == w
  {
    if n != 0 {
      ShlInjective(v, w, n - 1);
    }
  }

  // The mask comparison compares the leading bits.
  lemma SamePrefix(ip: Ip, net: Ip, prefix: nat)
    requires IpOk(ip) && IpOk(net) && ip.V4? == net.V4? && prefix <= Width(ip)
    ensures InCidr(ip, net, prefix) <==> Shr(ip.addr, Width(ip) - prefix) == Shr(net.addr, Width(ip) - prefix)
  {
    var w := Width(ip);
    var shift := w - prefix;
    hide Mask, And, Shl, Shr, Pow2;
    if prefix == 0 {
      NothingAbove(ip.addr, w);
      NothingAbove(net.addr, w);
    } else {
      MaskValue(w, shift);
      AndHigh(ip.addr, prefix, shift);
      AndHigh(net.addr, prefix, shift);
      ShlInjective(Shr(ip.addr, shift), Shr(net.addr, shift), shift);
    }
  }

  lemma NothingAbove(v: nat, n: nat)
    requires v < Pow2(n)
    ensures Shr(v, n) == 0
  {
    ShrBound(v, 0, n);
    assert Pow2(0) == 1;
  }

  // ---- blocks are aligned intervals ----

  function BlockStart(net: Ip, prefix: nat): nat
    requires prefix <= Width(net)
  {
    Shl(Shr(net.addr, Width(net) - prefix), Width(net) - prefix)
  }

  lemma {:induction false} ShlOrder(v: nat, w: nat, n: nat)
    requires v < w
    ensures Shl(v, n) + Pow2(n) <= Shl(w, n)
  {
    if n != 0 {
      ShlOrder(v, w, n - 1);
    }
  }

  // A block is the aligned interval of 2^(width - prefix) addresses around its net.
  lemma BlockIsInterval(ip: Ip, net: Ip, prefix: nat)
    requires IpOk(ip) && IpOk(net) && ip.V4? == net.V4? && prefix <= Width(net)
    ensures InCidr(ip, net, prefix) <==>
      BlockStart(net, prefix) <= ip.addr < BlockStart(net, prefix) + Pow2(Width(net) - prefix)
  {
    var shift := Width(net) - prefix;
    SamePrefix(ip, net, prefix);
    hide InCidr, Shl, Shr, Low, Pow2;
    var a, b := Shr(ip.addr, shift), Shr(net.addr, shift);
    ShrShl(ip.addr, shift);
    LowBound(ip.addr, shift);
    if a < b {
      ShlOrder(a, b, shift);
    } else if b < a {
      ShlOrder(b, a, shift);
    }
  }

  lemma {:induction false} ShrShr(v: nat, m: nat, n: nat)
    ensures Shr(v, m + n) == Shr(Shr(v, m), n)
  {
    if m != 0 {
      ShrShr(v / 2, m - 1, n);
    }
  }

  // Two blocks that share an address are one inside the other.
  lemma BlocksNest(ip: Ip, net1: Ip, prefix1: nat, net2: Ip, prefix2: nat, other: Ip)
    requires IpOk(ip) && IpOk(net1) && IpOk(net2) && IpOk(other) && prefix1 <= prefix2
    requires InCidr(ip, net1, prefix1) && InCidr(ip, net2, prefix2) && InCidr(other, net2, prefix2)
    ensures InCidr(other, net1, prefix1)
  {
    var w := Width(ip);
    hide Shr, Mask, And, Pow2;
    SamePrefix(ip, net1, prefix1);
    SamePrefix(ip, net2, prefix2);
    SamePrefix(other, net2, prefix2);
    SamePrefix(other, net1, prefix1);
    ShrShr(ip.addr, w - prefix2, prefix2 - prefix1);
    ShrShr(other.addr, w - prefix2, prefix2 - prefix1);
  }

  // Addresses of different families share no block, and no prefix is longer than the address.
  lemma OutsideBlocks(ip: Ip, net: Ip, prefix: nat)
    requires ip.V4? != net.V4? || prefix > Width(ip)
    ensures !InCidr(ip, net, prefix)
  {
  }

  // ---- the pattern list ----

  // Address and number parsing.
  datatype Parsers = Parsers(ip: string -> Option<Ip>, prefix: string -> Option<nat>)

  predicate IsStar(c: char) {
    c == '*'
  }

  // The host, or a subdomain of it, whatever the case.
  predicate HostMatchesSuffix(host: string, suffix: string) {
    if |host| == |suffix| then EqIgnoreCase(host, suffix)
    else |host| > |suffix| && host[|host| - |suffix| - 1] == '.' && EqIgnoreCase(host[|host| - |suffix|..], suffix)
  }

  // Whether one pattern lets a host bypass the proxy.
  predicate PatternMatches(parsers: Parsers, host: string, hostIp: Option<Ip>, raw: string) {
    var pattern := Trim(raw);
    if pattern == "" then false
    else if pattern == "*" then true
    else match SplitOnce(pattern, '/')
      case Some((net, prefix)) =>
        hostIp.Some? && parsers.ip(Trim(net)).Some? && parsers.prefix(Trim(prefix)).Some? &&
        InCidr(hostIp.value, parsers.ip(Trim(net)).value, parsers.prefix(Trim(prefix)).value)
      case None =>
        if parsers.ip(pattern).Some? then parsers.ip(pattern) == hostIp
        else
          var suffix := TrimEnd(TrimStart(TrimStart(pattern, IsStar), IsDot), IsDot);
          hostIp.None? && suffix != "" && HostMatchesSuffix(host, suffix)
  }

  // ---- what a pattern means ----

  function LowerLabels(host: string): seq<string> {
    Split(ToLower(host), '.')
  }

  // A host matches a suffix exactly when its labels end in the suffix's, whatever the case.
  lemma SuffixLabels(host: string, suffix: string)
    ensures HostMatchesSuffix(host, suffix) <==> EndsIn(LowerLabels(host), LowerLabels(suffix))
  {
    var h, s := ToLower(host), ToLower(suffix);
    SplitSuffix(h, s, '.');
    hide Split;
    if |h| > |s| {
      var tail := host[|host| - |suffix|..];
      assert ToLower(tail) == h[|h| - |s|..];
      DotStays(host[|host| - |suffix| - 1]);
    }
  }

  lemma DotStays(c: char)
    ensures Lower(c) == '.' <==> c == '.'
  {
  }

  // "*" matches every host, an empty pattern none.
  lemma StarAndNothing(parsers: Parsers, host: string, hostIp: Option<Ip>)
    ensures PatternMatches(parsers, host, hostIp, "*") && !PatternMatches(parsers, host, hostIp, "")
  {
    TrimmedTrim("*");
  }

  // An address matches itself alone.
  lemma AddressPattern(parsers: Parsers, host: string, hostIp: Option<Ip>, p: string)
    requires p != "" && p != "*" && Trimmed(p) && '/' !in p && parsers.ip(p).Some?
    ensures PatternMatches(parsers, host, hostIp, p) <==> hostIp == parsers.ip(p)
  {
    hide Trim;
    TrimmedTrim(p);
  }

  // A block matches the addresses inside it, spaces around its parts aside.
  lemma BlockPattern(parsers: Parsers, host: string, hostIp: Option<Ip>, net: string, prefix: string)
    requires net != "" && prefix != "" && Trimmed(net) && Trimmed(prefix) && '/' !in net
    ensures PatternMatches(parsers, host, hostIp, net + "/" + prefix) <==>
      hostIp.Some? && parsers.ip(net).Some? && parsers.prefix(prefix).Some? &&
      InCidr(hostIp.value, parsers.ip(net).value, parsers.prefix(prefix).value)
  {
    hide Trim, SplitOnce, InCidr;
    var p := net + "/" + prefix;
    TrimmedTrim(p);
    TrimmedTrim(net);
    TrimmedTrim(prefix);
    assert p == net + ['/'] + prefix;
    SplitOnceAt(net, prefix, '/');
  }

  // A name pattern: stars and dots before a name, dots after it.
  predicate IsNamePattern(stars: string, dots: string, name: string, tail: string) {
    Only(stars, '*') && Only(dots, '.') && Only(tail, '.') &&
    name != "" && Trimmed(name) && '/' !in name && name[0] != '.' && name[|name| - 1] != '.' &&
    (dots == "" ==> name[0] != '*')
  }

  // A name matches itself and what is under it, with or without "*" and dots before it and
  // dots after it; never an address.
  lemma NamePattern(parsers: Parsers, host: string, hostIp: Option<Ip>, stars: string, dots: string, name: string, tail: string)
    requires IsNamePattern(stars, dots, name, tail) && parsers.ip(stars + dots + name + tail).None?
    ensures PatternMatches(parsers, host, hostIp, stars + dots + name + tail)
      <==> hostIp.None? && EndsIn(LowerLabels(host), LowerLabels(name))
  {
    hide PatternMatches, Trimmed, TrimStart, TrimEnd, LowerLabels, EndsIn;
    NameTrimmed(stars, dots, name, tail);
    NameBare(stars, dots, name, tail);
    NameIsOther(stars, dots, name, tail);
    hide IsNamePattern;
    NameMatches(parsers, host, hostIp, stars + dots + name + tail, name);
  }

  lemma NameIsOther(stars: string, dots: string, name: string, tail: string)
    requires IsNamePattern(stars, dots, name, tail)
    ensures var p := stars + dots + name + tail; p != "" && p != "*" && '/' !in p && name != ""
  {
    hide Trimmed;
    var p := stars + dots + name + tail;
    assert |p| == |stars| + |dots| + |name| + |tail|;
    if |p| == 1 {
      assert p[0] == name[0];
    }
    assert '/' !in stars && '/' !in dots && '/' !in tail;
  }

  lemma NameMatches(parsers: Parsers, host: string, hostIp: Option<Ip>, p: string, name: string)
    requires p != "" && p != "*" && Trimmed(p) && '/' !in p && parsers.ip(p).None? && name != ""
    requires TrimEnd(TrimStart(TrimStart(p, IsStar), IsDot), IsDot) == name
    ensures PatternMatches(parsers, host, hostIp, p) <==> hostIp.None? && EndsIn(LowerLabels(host), LowerLabels(name))
  {
    hide Trim, TrimStart, TrimEnd, HostMatchesSuffix, LowerLabels;
    TrimmedTrim(p);
    SuffixLabels(host, name);
  }

  lemma NameTrimmed(stars: string, dots: string, name: string, tail: string)
    requires IsNamePattern(stars, dots, name, tail)
    ensures Trimmed(stars + dots + name + tail)
  {
    var p := stars + dots + name + tail;
    assert p[0] == '*' || p[0] == '.' || p[0] == name[0];
    assert p[|p| - 1] == '.' || p[|p| - 1] == name[|name| - 1];
  }

  lemma NameBare(stars: string, dots: string, name: string, tail: string)
    requires IsNamePattern(stars, dots, name, tail)
    ensures TrimEnd(TrimStart(TrimStart(stars + dots + name + tail, IsStar), IsDot), IsDot) == name
  {
    hide TrimStart, TrimEnd, Only, Trimmed;
    var bare := name + tail;
    var rest := dots + bare;
    assert stars + dots + name + tail == stars + rest;
    assert rest[0] != '*' by {
      FirstIsDot(dots);
    }
    TrimStartOnly(stars, '*', rest, IsStar);
    TrimStartOnly(dots, '.', bare, IsDot);
    TrimEndOnly(name, tail, '.', IsDot);
  }

  lemma FirstIsDot(dots: string)
    requires Only(dots, '.')
    ensures dots != "" ==> dots[0] == '.'
  {
  }

  // ---- the verdict ----

  // Some pattern lets the host bypass.
  predicate Bypasses(parsers: Parsers, host: string, patterns: seq<string>) {
    var bare := Unbracketed(host);
    host != "" &&
    exists i :: 0 <= i < |patterns| && PatternMatches(parsers, TrimEnd(bare, IsDot), parsers.ip(bare), patterns[i])
  }

  // The scan over the patterns, which stops at the first that matches.
  method HostBypassesProxy(parsers: Parsers, host: string, patterns: seq<string>) returns (bypass: bool)
    ensures bypass == Bypasses(parsers, host, patterns)
  {
    hide InCidr, Trim, TrimStart, TrimEnd, SplitOnce, HostMatchesSuffix, Unbracketed;
    if host == "" {
      return false;
    }
    var bare := Unbracketed(host);
    var hostIp := parsers.ip(bare);
    var name := TrimEnd(bare, IsDot);
    for i := 0 to |patterns|
      invariant forall k :: 0 <= k < i ==> !PatternMatches(parsers, name, hostIp, patterns[k])
    {
      var pattern := Trim(patterns[i]);
      if pattern == "" {
        continue;
      }
      if pattern == "*" {
        return true;
      }
      var cidr := SplitOnce(pattern, '/');
      if cidr.Some? {
        var netIp, prefixLen := parsers.ip(Trim(cidr.value.0)), parsers.prefix(Trim(cidr.value.1));
        if hostIp.Some? && netIp.Some? && prefixLen.Some? && InCidr(hostIp.value, netIp.value, prefixLen.value) {
          return true;
        }
        continue;
      }
      var patternIp := parsers.ip(pattern);
      if patternIp.Some? {
        if patternIp == hostIp {
          return true;
        }
        continue;
      }
      if hostIp.Some? {
        continue;
      }
      var suffix := TrimEnd(TrimStart(TrimStart(pattern, IsStar), IsDot), IsDot);
      if suffix != "" && HostMatchesSuffix(name, suffix) {
        return true;
      }
    }
    return false;
  }

  // A host given as an address, in brackets or not, bypasses by exactly that address.
  lemma BypassOfAddress(parsers: Parsers, a: string, p: string)
    requires a != "" && a[0] != '[' && parsers.ip(a).Some?
    requires p != "" && p != "*" && Trimmed(p) && '/' !in p && parsers.ip(p).Some?
    ensures Bypasses(parsers, a, [p]) <==> parsers.ip(a) == parsers.ip(p)
    ensures Bypasses(parsers, "[" + a + "]", [p]) <==> parsers.ip(a) == parsers.ip(p)
  {
    hide PatternMatches, TrimEnd;
    var bracketed := "[" + a + "]";
    assert bracketed[1..|bracketed| - 1] == a;
    AddressPattern(parsers, TrimEnd(a, IsDot), parsers.ip(a), p);
    OnePattern(parsers, a, p);
    OnePattern(parsers, bracketed, p);
  }

  lemma OnePattern(parsers: Parsers, host: string, p: string)
    requires host != ""
    ensures Bypasses(parsers, host, [p])
      <==> PatternMatches(parsers, TrimEnd(Unbracketed(host), IsDot), parsers.ip(Unbracketed(host)), p)
  {
    hide PatternMatches, TrimEnd, Unbracketed;
    assert [p][0] == p;
  }

  // A host given as a name, with or without dots at its end, bypasses by the name patterns
  // it is under; no host at all never does.
  lemma BypassOfName(parsers: Parsers, h: string, end: string, stars: string, dots: string, name: string, tail: string)
    requires h != "" && h[0] != '[' && h[|h| - 1] != '.' && Only(end, '.') && parsers.ip(h + end).None?
    requires IsNamePattern(stars, dots, name, tail) && parsers.ip(stars + dots + name + tail).None?
    ensures Bypasses(parsers, h + end, [stars + dots + name + tail]) <==> EndsIn(LowerLabels(h), LowerLabels(name))
    ensures !Bypasses(parsers, "", [stars + dots + name + tail])
  {
    hide PatternMatches, TrimEnd, LowerLabels, IsNamePattern;
    assert (h + end)[0] == h[0];
    TrimEndOnly(h, end, '.', IsDot);
    NamePattern(parsers, h, None, stars, dots, name, tail);
    OnePattern(parsers, h + end, stars + dots + name + tail);
  }

  // The verdict on a list is the disjunction of the verdicts on its patterns alone, so
  // neither order nor repetition matters.
  lemma BypassIsDisjunction(parsers: Parsers, host: string, patterns: seq<string>)
    ensures Bypasses(parsers, host, patterns)
      <==> exists i :: 0 <= i < |patterns| && Bypasses(parsers, host, [patterns[i]])
  {
    hide PatternMatches;
    forall i | 0 <= i < |patterns|
      ensures Bypasses(parsers, host, [patterns[i]]) ==> Bypasses(parsers, host, patterns)
    {
      assert [patterns[i]][0] == patterns[i];
    }
    if Bypasses(parsers, host, patterns) {
      var bare := Unbracketed(host);
      var i :| 0 <= i < |patterns| && PatternMatches(parsers, TrimEnd(bare, IsDot), parsers.ip(bare), patterns[i]);
      assert [patterns[i]][0] == patterns[i];
      assert Bypasses(parsers, host, [patterns[i]]);
    }
  }

  // More patterns never take a bypass away.
  lemma BypassMonotone(parsers: Parsers, host: string, patterns: seq<string>, more: seq<string>)
    requires forall p :: p in patterns ==> p in more
    requires Bypasses(parsers, host, patterns)
    ensures Bypasses(parsers, host, more)
  {
    hide Bypasses;
    BypassIsDisjunction(parsers, host, patterns);
    var i :| 0 <= i < |patterns| && Bypasses(parsers, host, [patterns[i]]);
    assert patterns[i] in more;
    var j :| 0 <= j < |more| && more[j] == patterns[i];
    BypassIsDisjunction(parsers, host, more);
  }
}
