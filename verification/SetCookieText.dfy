// What each attribute of a Set-Cookie value does, told on the text of the header.
module SetCookieText {
  import opened Wrappers
  import opened Text
  import opened CookieRules

  // ---- one more attribute at the end of a value ----

  lemma Appended(value: string, attr: string)
    requires ';' !in attr
    ensures Split(value + ";" + attr, ';') == Split(value, ';') + [attr]
    ensures Split(value + ";" + attr, ';')[0] == Split(value, ';')[0]
    ensures Split(value + ";" + attr, ';')[1..] == Split(value, ';')[1..] + [attr]
  {
    hide Split;
    assert value + ";" + attr == value + [';'] + attr;
    SplitAppend(value, attr, ';');
    SplitNone(attr, ';');
  }

  // An attribute reads as its name and its value, without the spaces around them.
  lemma AttributeText(key: string, aval: string)
    requires key != [] && Trimmed(key) && Trimmed(aval) && '=' !in key
    ensures Attribute(" " + key + "=" + aval) == (key, aval)
  {
    hide SplitOnce, TrimStart, TrimEnd, IsSpace, Trimmed;
    var text := key + "=" + aval;
    assert " " + key + "=" + aval == " " + text;
    TrimHead(key, aval);
    assert text == key + ['='] + aval;
    SplitOnceAt(key, aval, '=');
    TrimmedTrim(key);
    TrimmedTrim(aval);
  }

  lemma AttributeFlag(key: string)
    requires key != [] && Trimmed(key) && '=' !in key
    ensures Attribute(" " + key) == (key, "")
  {
    hide SplitOnce, TrimStart, TrimEnd;
    TrimPadded(" ", key);
    assert SplitOnce(key, '=') == None;
  }

  lemma TrimHead(key: string, aval: string)
    requires key != [] && Trimmed(key) && Trimmed(aval)
    ensures Trim(" " + (key + "=" + aval)) == key + "=" + aval
  {
    var text := key + "=" + aval;
    assert text[|text| - 1] == ("=" + aval)[|aval|];
    hide TrimStart, TrimEnd;
    TrimPadded(" ", text);
  }

  // The value as the ingredients of its cookie.
  lemma ParsedParts(env: Env, now: int, value: string, host: string, path: string)
    ensures var attrs := Split(value, ';')[1..];
      Parsed(env, now, value, host, path)
      == Assembled(env, now, Split(value, ';')[0], LastDomain(attrs), LastPath(attrs), HasSecure(attrs),
                   LastMaxAge(attrs), LastExpires(env, attrs), host, path)
  {
  }

  predicate IsPair(text: string) {
    var pair := SplitOnce(Trim(text), '=');
    pair.Some? && Trim(pair.value.0) != []
  }

  // What a value says before any attribute: its pair.
  predicate HasPair(value: string) {
    IsPair(Split(value, ';')[0])
  }

  // A value without a named pair is refused.
  lemma ParsedHasPair(env: Env, now: int, value: string, host: string, path: string)
    ensures Parsed(env, now, value, host, path).Some? ==> HasPair(value)
  {
    hide Split, Trim, SplitOnce, LastDomain, LastPath, LastMaxAge, LastExpires, HasSecure, Scope, DefaultPath;
  }

  lemma TrimmedPair(name: string, val: string)
    requires name != [] && Trimmed(name) && Trimmed(val)
    ensures Trimmed(name + "=" + val)
  {
    var value := name + "=" + val;
    assert value[|value| - 1] == ("=" + val)[|val|];
  }

  lemma PairText(name: string, val: string)
    requires name != [] && Trimmed(name) && Trimmed(val) && '=' !in name
    ensures SplitOnce(Trim(name + "=" + val), '=') == Some((name, val))
    ensures Trim(name) == name && Trim(val) == val
  {
    hide SplitOnce, Trim, Trimmed;
    var text := name + "=" + val;
    TrimmedPair(name, val);
    TrimmedTrim(text);
    TrimmedTrim(name);
    TrimmedTrim(val);
    SplitOnceAt(name, val, '=');
    assert text == name + ['='] + val;
  }

  lemma PairAlone(name: string, val: string)
    requires ';' !in name && ';' !in val
    ensures Split(name + "=" + val, ';') == [name + "=" + val]
  {
    hide Split;
    SplitNone(name + "=" + val, ';');
  }

  // A bare pair is a session cookie for its own host and the default path.
  lemma BarePair(env: Env, now: int, name: string, val: string, host: string, path: string)
    requires name != [] && Trimmed(name) && Trimmed(val) && '=' !in name && ';' !in name && ';' !in val
    ensures Parsed(env, now, name + "=" + val, host, path)
         == Some((Cookie(name, val, host, true, DefaultPath(path), false), false))
  {
    hide SplitOnce, Trim, Trimmed, Split, DefaultPath, LastDomain, LastPath, LastMaxAge, LastExpires, HasSecure, Parsed;
    PairAlone(name, val);
    PairText(name, val);
    NoAttributes(env);
    ParsedParts(env, now, name + "=" + val, host, path);
    assert [name + "=" + val][1..] == [];
  }

  lemma NoAttributes(env: Env)
    ensures LastDomain([]) == None && LastPath([]) == None && !HasSecure([])
    ensures LastMaxAge([]) == None && LastExpires(env, []) == None
  {
  }

  // ---- what the last attribute decides ----

  lemma LastOfMore(env: Env, attrs: seq<string>, attr: string)
    ensures var (key, aval) := Attribute(attr); var more := attrs + [attr];
      LastDomain(more) == (if EqIgnoreCase(key, "domain") && DomainValue(aval) != [] then Some(DomainValue(aval)) else LastDomain(attrs)) &&
      LastPath(more) == (if EqIgnoreCase(key, "path") && StartsWith(aval, "/") then Some(aval) else LastPath(attrs)) &&
      LastMaxAge(more) == (if EqIgnoreCase(key, "max-age") then ParseI64(aval) else LastMaxAge(attrs)) &&
      LastExpires(env, more) == (if EqIgnoreCase(key, "expires") then env.httpDate(aval) else LastExpires(env, attrs))
  {
    hide Attribute, DomainValue, ParseI64, EqIgnoreCase;
    var more := attrs + [attr];
    assert more[..|more| - 1] == attrs;
  }

  lemma SecureOfMore(attrs: seq<string>, attr: string)
    ensures HasSecure(attrs + [attr]) <==> HasSecure(attrs) || EqIgnoreCase(Attribute(attr).0, "secure")
  {
    hide Attribute, EqIgnoreCase;
    var more := attrs + [attr];
    assert forall i :: 0 <= i < |attrs| ==> more[i] == attrs[i];
    assert more[|attrs|] == attr;
  }

  lemma NamesOfAttributes()
    ensures EqIgnoreCase("Secure", "secure") && EqIgnoreCase("Path", "path") && EqIgnoreCase("Domain", "domain")
    ensures EqIgnoreCase("Max-Age", "max-age") && EqIgnoreCase("Expires", "expires")
    ensures Trimmed("Secure") && Trimmed("Path") && Trimmed("Domain") && Trimmed("Max-Age") && Trimmed("Expires")
  {
    LowerNames();
    assert ToLower("Secure") == "secure" && ToLower("Path") == "path" && ToLower("Domain") == "domain";
    MoreNames();
    hide ToLower;
  }

  lemma MoreNames()
    ensures ToLower("Max-Age") == "max-age" && ToLower("Expires") == "expires"
  {
  }

  lemma LowerNames()
    ensures ToLower("domain") == "domain" && ToLower("path") == "path" && ToLower("secure") == "secure"
    ensures ToLower("max-age") == "max-age" && ToLower("expires") == "expires"
  {
  }

  // The ingredients after one more attribute.
  lemma PartsAppended(env: Env, now: int, value: string, key: string, aval: string, attr: string, host: string, path: string)
    requires ';' !in attr && Attribute(attr) == (key, aval)
    ensures var attrs := Split(value, ';')[1..];
      Parsed(env, now, value + ";" + attr, host, path)
      == Assembled(env, now, Split(value, ';')[0],
           if EqIgnoreCase(key, "domain") && DomainValue(aval) != [] then Some(DomainValue(aval)) else LastDomain(attrs),
           if EqIgnoreCase(key, "path") && StartsWith(aval, "/") then Some(aval) else LastPath(attrs),
           HasSecure(attrs) || EqIgnoreCase(key, "secure"),
           if EqIgnoreCase(key, "max-age") then ParseI64(aval) else LastMaxAge(attrs),
           if EqIgnoreCase(key, "expires") then env.httpDate(aval) else LastExpires(env, attrs), host, path)
  {
    hide Split, Attribute, DomainValue, ParseI64, EqIgnoreCase, LastDomain, LastPath, LastMaxAge, LastExpires, HasSecure, Assembled;
    Appended(value, attr);
    LastOfMore(env, Split(value, ';')[1..], attr);
    SecureOfMore(Split(value, ';')[1..], attr);
    ParsedParts(env, now, value + ";" + attr, host, path);
  }

  // "; Secure" makes the cookie secure and changes nothing else.
  lemma SecureAppended(env: Env, now: int, value: string, host: string, path: string)
    ensures var before, after := Parsed(env, now, value, host, path), Parsed(env, now, value + "; Secure", host, path);
      if before.None? then after.None?
      else after == Some((before.value.0.(secure := true), before.value.1))
  {
    hide Split, Attribute, DomainValue, ParseI64, EqIgnoreCase, LastDomain, LastPath, LastMaxAge, LastExpires, HasSecure, Parsed,
         Trim, SplitOnce, Scope, DefaultPath, Expired;
    NamesOfAttributes();
    AttributeFlag("Secure");
    assert " " + "Secure" == " Secure" && value + ";" + " Secure" == value + "; Secure";
    KeysDiffer("Secure");
    ParsedParts(env, now, value, host, path);
    PartsAppended(env, now, value, "Secure", "", " Secure", host, path);
  }

  // "; Path=p" decides the path, if p is absolute, and changes nothing else; otherwise it
  // changes nothing at all.
  lemma PathAppended(env: Env, now: int, value: string, p: string, host: string, path: string)
    requires Trimmed(p) && ';' !in p
    ensures var before, after := Parsed(env, now, value, host, path), Parsed(env, now, value + "; Path=" + p, host, path);
      if before.None? then after.None?
      else after == Some((if StartsWith(p, "/") then before.value.0.(path := p) else before.value.0, before.value.1))
  {
    hide Split, Attribute, DomainValue, ParseI64, EqIgnoreCase, LastDomain, LastPath, LastMaxAge, LastExpires, HasSecure, Parsed,
         Trim, Trimmed, SplitOnce, Scope, DefaultPath, Expired;
    NamesOfAttributes();
    OneMore(value, "Path", p);
    KeysDiffer("Path");
    ParsedParts(env, now, value, host, path);
    PartsAppended(env, now, value, "Path", p, " " + "Path" + "=" + p, host, path);
    assert value + "; " + "Path" + "=" + p == value + "; Path=" + p;
  }

  // "; Max-Age=n" decides the expiry when n is a number, whatever Expires says, and changes
  // nothing else; otherwise Expires is left to decide.
  lemma MaxAgeAppended(env: Env, now: int, value: string, age: string, host: string, path: string)
    requires Trimmed(age) && ';' !in age
    ensures var before, after := Parsed(env, now, value, host, path), Parsed(env, now, value + "; Max-Age=" + age, host, path);
      if before.None? then after.None?
      else
        after.Some? && after.value.0 == before.value.0 &&
        after.value.1 ==
          match ParseI64(age)
          case Some(n) => n <= 0
          case None => var e := LastExpires(env, Split(value, ';')[1..]); e.Some? && e.value <= now
  {
    hide Split, Attribute, DomainValue, ParseI64, EqIgnoreCase, LastDomain, LastPath, LastMaxAge, LastExpires, HasSecure, Parsed,
         Trim, Trimmed, SplitOnce, Scope, DefaultPath;
    NamesOfAttributes();
    OneMore(value, "Max-Age", age);
    KeysDiffer("Max-Age");
    ParsedParts(env, now, value, host, path);
    PartsAppended(env, now, value, "Max-Age", age, " " + "Max-Age" + "=" + age, host, path);
    assert value + "; " + "Max-Age" + "=" + age == value + "; Max-Age=" + age;
  }

  // "; Expires=d" decides the expiry unless a Max-Age does, and changes nothing else.
  lemma ExpiresAppended(env: Env, now: int, value: string, date: string, host: string, path: string)
    requires Trimmed(date) && ';' !in date
    ensures var before, after := Parsed(env, now, value, host, path), Parsed(env, now, value + "; Expires=" + date, host, path);
      if before.None? then after.None?
      else
        after.Some? && after.value.0 == before.value.0 &&
        after.value.1 ==
          if LastMaxAge(Split(value, ';')[1..]).Some? then before.value.1
          else env.httpDate(date).Some? && env.httpDate(date).value <= now
  {
    hide Split, Attribute, DomainValue, ParseI64, EqIgnoreCase, LastDomain, LastPath, LastMaxAge, LastExpires, HasSecure, Parsed,
         Trim, Trimmed, SplitOnce, Scope, DefaultPath;
    NamesOfAttributes();
    OneMore(value, "Expires", date);
    KeysDiffer("Expires");
    ParsedParts(env, now, value, host, path);
    PartsAppended(env, now, value, "Expires", date, " " + "Expires" + "=" + date, host, path);
    assert value + "; " + "Expires" + "=" + date == value + "; Expires=" + date;
  }

  // Whether a host may set cookies for a domain: the domain reaches it, and unless the host
  // is an address, either both have the same registrable domain or the domain, having
  // none, is the host itself.
  predicate MaySet(env: Env, host: string, domain: string) {
    Reaches(env, domain, host) &&
    (env.isIp(host) ||
     (if env.registrable(domain).Some? then env.registrable(host) == env.registrable(domain) else domain == host))
  }

  lemma ScopeExactly(env: Env, host: string, domain: string)
    ensures Scope(env, host, Some(domain)) ==
      if !MaySet(env, host, domain) then None
      else if env.isIp(host) || env.registrable(domain).None? then Some((host, true)) else Some((domain, false))
  {
    hide DomainMatches, Reaches;
    DomainLabels(env, host, domain);
  }

  // What a Domain attribute changes in the cookie.
  lemma AssembledDomain(env: Env, now: int, pair: string, before: Option<string>, domain: string, path: Option<string>,
                        secure: bool, maxAge: Option<int>, expires: Option<int>, host: string, requestPath: string)
    ensures var c := Assembled(env, now, pair, before, path, secure, maxAge, expires, host, requestPath);
      var d := Assembled(env, now, pair, Some(domain), path, secure, maxAge, expires, host, requestPath);
      var scope := Scope(env, host, Some(domain));
      (d.Some? <==> IsPair(pair) && scope.Some?) &&
      (d.Some? ==> (d.value.0.domain, d.value.0.hostOnly) == scope.value) &&
      (c.Some? && d.Some? ==>
        d.value == (c.value.0.(domain := d.value.0.domain, hostOnly := d.value.0.hostOnly), c.value.1))
  {
    hide Trim, SplitOnce, Scope, DefaultPath, Expired;
  }

  // "; Domain=d" decides the scope, whatever the value said before: the cookie is refused
  // when the host may not set it; kept to the host when the host is an address or d is a
  // public suffix; given to d otherwise. A Domain with no name in it changes nothing.
  lemma DomainAppended(env: Env, now: int, value: string, d: string, host: string, path: string)
    requires Trimmed(d) && ';' !in d
    ensures var before, after := Parsed(env, now, value, host, path), Parsed(env, now, value + "; Domain=" + d, host, path);
      var domain := CanonicalHost(TrimStart(d, IsDot));
      if domain == [] then after == before
      else
        (after.Some? <==> HasPair(value) && MaySet(env, host, domain)) &&
        (after.Some? ==>
          var wide := !env.isIp(host) && env.registrable(domain).Some?;
          after.value.0.domain == (if wide then domain else host) && after.value.0.hostOnly == !wide) &&
        (after.Some? && before.Some? ==>
          after.value.0 == before.value.0.(domain := after.value.0.domain, hostOnly := after.value.0.hostOnly) &&
          after.value.1 == before.value.1)
  {
    hide Split, Attribute, CanonicalHost, ParseI64, EqIgnoreCase, LastDomain, LastPath, LastMaxAge, LastExpires, HasSecure, Parsed,
         Trim, TrimStart, TrimEnd, Trimmed, SplitOnce, Scope, MaySet, Assembled, IsPair;
    var attrs := Split(value, ';')[1..];
    DomainParts(env, now, value, d, host, path);
    ParsedParts(env, now, value, host, path);
    AssembledDomain(env, now, Split(value, ';')[0], LastDomain(attrs), CanonicalHost(TrimStart(d, IsDot)), LastPath(attrs),
                    HasSecure(attrs), LastMaxAge(attrs), LastExpires(env, attrs), host, path);
    ScopeExactly(env, host, CanonicalHost(TrimStart(d, IsDot)));
  }

  lemma DomainParts(env: Env, now: int, value: string, d: string, host: string, path: string)
    requires Trimmed(d) && ';' !in d
    ensures var attrs := Split(value, ';')[1..]; var domain := CanonicalHost(TrimStart(d, IsDot));
      Parsed(env, now, value + "; Domain=" + d, host, path)
      == Assembled(env, now, Split(value, ';')[0], if domain == [] then LastDomain(attrs) else Some(domain),
                   LastPath(attrs), HasSecure(attrs), LastMaxAge(attrs), LastExpires(env, attrs), host, path)
  {
    hide Split, Attribute, CanonicalHost, ParseI64, EqIgnoreCase, LastDomain, LastPath, LastMaxAge, LastExpires, HasSecure, Parsed,
         Trim, TrimStart, TrimEnd, Trimmed, Assembled;
    NamesOfAttributes();
    OneMore(value, "Domain", d);
    KeysDiffer("Domain");
    PartsAppended(env, now, value, "Domain", d, " " + "Domain" + "=" + d, host, path);
    assert value + "; " + "Domain" + "=" + d == value + "; Domain=" + d;
  }

  // The text of one more attribute.
  lemma OneMore(value: string, key: string, aval: string)
    requires key != [] && Trimmed(key) && Trimmed(aval) && '=' !in key && ';' !in key && ';' !in aval
    ensures Attribute(" " + key + "=" + aval) == (key, aval) && ';' !in " " + key + "=" + aval
    ensures value + ";" + (" " + key + "=" + aval) == value + "; " + key + "=" + aval
  {
    hide Attribute, Trimmed;
    AttributeText(key, aval);
  }

  // An attribute of any other name changes nothing.
  lemma OtherAppended(env: Env, now: int, value: string, attr: string, host: string, path: string)
    requires ';' !in attr
    requires var key := ToLower(Attribute(attr).0);
      key != "domain" && key != "path" && key != "secure" && key != "max-age" && key != "expires"
    ensures Parsed(env, now, value + ";" + attr, host, path) == Parsed(env, now, value, host, path)
  {
    hide Split, Attribute, DomainValue, ParseI64, LastDomain, LastPath, LastMaxAge, LastExpires, HasSecure, Parsed, Assembled, ToLower;
    LowerNames();
    var (key, aval) := Attribute(attr);
    ParsedParts(env, now, value, host, path);
    PartsAppended(env, now, value, key, aval, attr, host, path);
  }

  // ---- Secure, wherever it stands ----

  // Some attribute of the value is called Secure.
  predicate CarriesSecure(value: string) {
    exists attr :: attr in Split(value, ';')[1..] && EqIgnoreCase(Attribute(attr).0, "secure")
  }

  // A cookie is secure exactly when its header says so.
  lemma SecureExactly(env: Env, now: int, value: string, host: string, path: string)
    ensures var r := Parsed(env, now, value, host, path); r.Some? ==> (r.value.0.secure <==> CarriesSecure(value))
  {
    hide Split, Attribute, EqIgnoreCase, LastDomain, LastPath, LastMaxAge, LastExpires, Trim, SplitOnce, Scope, DefaultPath, Expired;
    var attrs := Split(value, ';')[1..];
    if i :| 0 <= i < |attrs| && EqIgnoreCase(Attribute(attrs[i]).0, "secure") {
      assert attrs[i] in attrs;
    }
  }

  // ---- numbers ----

  function Digit(d: nat): char
    requires d < 10
  {
    '0' + d as char
  }

  // The decimal numeral of n.
  function Numeral(n: nat): (s: string)
    ensures s != []
  {
    (if n < 10 then [] else Numeral(n / 10)) + [Digit(n % 10)]
  }

  lemma {:induction false} NumeralReads(n: nat)
    ensures Decimal(Numeral(n)) == n
    ensures AllDigits(Numeral(n))
  {
    DigitValue(n % 10);
    if n >= 10 {
      NumeralReads(n / 10);
      DecimalSnoc(Numeral(n / 10), Digit(n % 10));
    } else {
      DecimalSnoc([], Digit(n));
      assert [] + [Digit(n)] == [Digit(n)];
    }
    hide Decimal, Digit;
  }

  lemma DigitValue(d: nat)
    requires d < 10
    ensures Digit(d) as int - '0' as int == d && '0' <= Digit(d) <= '9'
  {
  }

  lemma DecimalSnoc(s: string, c: char)
    requires '0' <= c <= '9'
    ensures Decimal(s + [c]) == 10 * Decimal(s) + (c as int - '0' as int)
  {
    assert (s + [c])[..|s + [c]| - 1] == s;
    assert Decimal(s + [c]) == 10 * Decimal(s) + (c as int - '0' as int) % 10;
    hide Decimal;
  }

  // A Max-Age is read as the number it is the numeral of, signed or not, as long as it fits
  // 64 bits.
  lemma NumberRoundTrip(n: nat)
    ensures var v: int := n;
      ParseI64(Numeral(n)) == ParseI64("+" + Numeral(n)) == if v < 0x8000_0000_0000_0000 then Some(v) else None
    ensures var v: int := 0 - n;
      ParseI64("-" + Numeral(n)) == if v >= -0x8000_0000_0000_0000 then Some(v) else None
  {
    NumeralReads(n);
    hide Decimal, Numeral;
    var s := Numeral(n);
    assert ("+" + s)[1..] == s && ("-" + s)[1..] == s;
    assert '0' <= s[0] <= '9';
  }

  // Anything else is not read as a number.
  lemma NotANumber(s: string, i: nat)
    requires i < |s| && !('0' <= s[i] <= '9') && (i == 0 && (s[0] == '+' || s[0] == '-') ==> |s| == 1)
    ensures ParseI64(s) == None
  {
    hide Decimal;
    if s[0] == '+' || s[0] == '-' {
      if |s| > 1 {
        var digits := s[1..];
        assert digits[i - 1] == s[i] && !AllDigits(digits);
      } else {
        assert s[1..] == [];
      }
    } else {
      assert !('0' <= s[i] <= '9');
    }
  }
}
