/**
 What the target parser and printer accept, refuse and return (src/monitoring/validators.py), part by part.
 */
module DnsLaws {
  import opened Common
  import opened Text
  import opened DnsTarget

  // ---- Names --------------------------------------------------------------------------------------

  /** Not empty, at most 253 characters before trailing dots, no white space and none of / ? # @. */
  predicate LawfulName(v: string) {
    && v != "" && (forall k :: 253 <= k < |v| ==> v[k] == '.')
    && forall k :: 0 <= k < |v| ==> !IsSpace(v[k]) && v[k] != '/' && v[k] != '?' && v[k] != '#' && v[k] != '@'
  }

  lemma {:induction false} TrimmedLength(v: string)
    ensures |TrimDots(v)| <= 253 <==> forall k :: 253 <= k < |v| ==> v[k] == '.'
  {
    if v != "" && v[|v| - 1] == '.' {
      TrimmedLength(v[..|v| - 1]);
      assert forall k :: 0 <= k < |v| - 1 ==> v[..|v| - 1][k] == v[k];
    } else if |v| > 253 {
      assert v[|v| - 1] != '.';
    }
  }

  lemma ValidIsLawful(v: string)
    ensures ValidName(v) <==> LawfulName(v)
  {
    hide IsSpace, TrimDots;
    TrimmedLength(v);
    if ValidName(v) {
      forall k | 0 <= k < |v| ensures !IsSpace(v[k]) && v[k] != '/' && v[k] != '?' && v[k] != '#' && v[k] != '@' {
        assert NameChar(v[k]);
      }
    }
  }

  /** Text without the scheme is a plain name, accepted exactly when it is lawful once stripped. */
  lemma PlainTarget(lib: Library, target: string)
    requires !(|Strip(target)| >= 6 && Lower(Strip(target)[..6]) == "dns://")
    ensures Parse(lib, target) == if LawfulName(Strip(target)) then Ok(Plain(Strip(target))) else Raised
  {
    hide Strip, Lower, ValidName;
    StripSpec(target);
    StripSpec(Strip(target));
    ValidIsLawful(Strip(target));
  }

  // ---- Explicit targets ---------------------------------------------------------------------------

  predicate Visible(s: string) { forall i :: 0 <= i < |s| ==> NameChar(s[i]) }

  /** Behind the authority: what the text parses to depends on the delimiters it contains. */
  lemma RestOfTarget(lib: Library, authority: string, tail: string)
    requires Visible(authority) && tail != "" && Delimiter(tail[0])
    requires forall i :: 0 <= i < |tail| ==> NameChar(tail[i]) || Delimiter(tail[i])
    ensures var rest := authority + tail;
            && DropTabs(rest) == rest && Find(rest, Delimiter) == |authority|
            && rest[..|authority|] == authority && rest[|authority|..] == tail
    ensures Strip(SCHEME + authority + tail) == SCHEME + authority + tail
  {
    hide IsSpace, Strip;
    var rest := authority + tail;
    DelimitersAreVisible();
    forall i | 0 <= i < |rest| ensures !IsSpace(rest[i]) {
      assert rest[i] == if i < |authority| then authority[i] else tail[i - |authority|];
    }
    DropTabsKeeps(rest);
    forall i | 0 <= i < |authority| ensures !Delimiter(rest[i]) {
      assert NameChar(authority[i]);
    }
    FindIs(rest, Delimiter, |authority|);
    StripVisible(rest);
    var target := SCHEME + authority + tail;
    assert target == SCHEME + rest;
    assert Strip(target) == target;
  }

  lemma StripVisible(rest: string)
    requires rest != "" && forall i :: 0 <= i < |rest| ==> !IsSpace(rest[i])
    ensures Strip(SCHEME + rest) == SCHEME + rest
  {
    hide IsSpace, Strip;
    var target := SCHEME + rest;
    assert target[0] == 'd' && target[|target| - 1] == rest[|rest| - 1];
    LetterIsVisible();
    StripSpec(target);
  }

  lemma DelimitersAreVisible()
    ensures forall c :: Delimiter(c) ==> !IsSpace(c)
  {
  }

  lemma LetterIsVisible()
    ensures !IsSpace('d')
  {
  }

  lemma ParseTail(lib: Library, authority: string, tail: string)
    requires Visible(authority) && tail != "" && Delimiter(tail[0])
    requires forall i :: 0 <= i < |tail| ==> NameChar(tail[i]) || Delimiter(tail[i])
    ensures Parse(lib, SCHEME + authority + tail) == ParseExplicit(lib, authority + tail)
  {
    hide ParseExplicit, NameChar, Strip, Lower, DropTabs, Find;
    RestOfTarget(lib, authority, tail);
    SchemeIsLower();
    var target := SCHEME + authority + tail;
    assert target[..6] == SCHEME && target[6..] == authority + tail;
  }

  /** The scheme is recognised in any case. */
  lemma SchemeInAnyCase(lib: Library, scheme: string, authority: string, tail: string)
    requires |scheme| == 6 && Lower(scheme) == SCHEME && !IsSpace(scheme[0])
    requires Visible(authority) && tail != "" && Delimiter(tail[0])
    requires forall i :: 0 <= i < |tail| ==> NameChar(tail[i]) || Delimiter(tail[i])
    ensures Parse(lib, scheme + authority + tail) == Parse(lib, SCHEME + authority + tail)
  {
    hide ParseExplicit, NameChar, Strip, Lower, DropTabs, Find, IsSpace, Delimiter;
    ParseTail(lib, authority, tail);
    StripScheme(scheme, authority, tail);
    SchemeSplit(scheme, authority, tail);
  }

  lemma SchemeSplit(scheme: string, authority: string, tail: string)
    requires |scheme| == 6
    ensures var target := scheme + authority + tail; target[..6] == scheme && target[6..] == authority + tail
  {
  }

  lemma StripScheme(scheme: string, authority: string, tail: string)
    requires scheme != "" && !IsSpace(scheme[0])
    requires tail != "" && forall i :: 0 <= i < |tail| ==> NameChar(tail[i]) || Delimiter(tail[i])
    ensures Strip(scheme + authority + tail) == scheme + authority + tail
  {
    hide IsSpace, Strip, NameChar, Delimiter;
    LastIsVisible(tail);
    var target := scheme + authority + tail;
    assert target[0] == scheme[0] && target[|target| - 1] == tail[|tail| - 1];
    StripSpec(target);
  }

  lemma LastIsVisible(tail: string)
    requires tail != "" && forall i :: 0 <= i < |tail| ==> NameChar(tail[i]) || Delimiter(tail[i])
    ensures !IsSpace(tail[|tail| - 1])
  {
    DelimitersAreVisible();
    hide IsSpace, Delimiter;
    assert NameChar(tail[|tail| - 1]) || Delimiter(tail[|tail| - 1]);
  }

  lemma UpperScheme()
    ensures |"DNS://"| == 6 && Lower("DNS://") == SCHEME && !IsSpace("DNS://"[0])
  {
  }

  /** Behind the authority a non-empty fragment or query string, or a second segment, is refused. */
  lemma TailRefused(lib: Library, authority: string, tail: string)
    requires Visible(authority) && tail != "" && Delimiter(tail[0])
    requires forall i :: 0 <= i < |tail| ==> NameChar(tail[i]) || Delimiter(tail[i])
    requires After(tail, '#') != "" || After(Before(tail, '#'), '?') != ""
             || Has(SkipSlashes(Before(Before(tail, '#'), '?')), '/')
    ensures Parse(lib, SCHEME + authority + tail) == Raised
  {
    hide Parse, ParseAuthority, DropTabs, NameChar, Strip, ValidateName, SkipSlashes, Has, Before, After, Find;
    ParseTail(lib, authority, tail);
    RestOfTarget(lib, authority, tail);
  }

  /** The first c in head + [c] + x. */
  lemma SplitsAt(head: string, c: char, x: string)
    requires forall i :: 0 <= i < |head| ==> head[i] != c
    ensures Before(head + [c] + x, c) == head && After(head + [c] + x, c) == x
  {
    var s := head + [c] + x;
    FindIs(s, Is(c), |head|);
    assert s[..|head|] == head && s[|head| + 1..] == x;
  }

  lemma PathLacks(name: string, c: char)
    requires Visible(name) && (c == '?' || c == '#')
    ensures forall i :: 0 <= i < |"/" + name| ==> ("/" + name)[i] != c
  {
    hide NameChar;
    NoDelimiter(name, c);
  }

  /** A query string is refused. */
  lemma QueryRefused(lib: Library, authority: string, name: string, x: string)
    requires Visible(authority) && Visible(name) && Visible(x) && x != ""
    ensures Parse(lib, SCHEME + authority + ("/" + name + "?" + x)) == Raised
  {
    hide Parse, NameChar, SkipSlashes, Before, After, Find, Strip;
    var path := "/" + name;
    var tail := path + "?" + x;
    SegmentChars(name, '?', x);
    PathLacks(name, '#');
    PathLacks(name, '?');
    NoDelimiter(x, '#');
    assert forall i :: 0 <= i < |tail| ==> tail[i] != '#';
    NoneIs(tail, '#');
    SplitsAt(path, '?', x);
    TailRefused(lib, authority, tail);
  }

  /** A fragment is refused. */
  lemma FragmentRefused(lib: Library, authority: string, name: string, x: string)
    requires Visible(authority) && Visible(name) && Visible(x) && x != ""
    ensures Parse(lib, SCHEME + authority + ("/" + name + "#" + x)) == Raised
  {
    hide Parse, NameChar, SkipSlashes, Before, After, Find, Strip;
    SegmentChars(name, '#', x);
    PathLacks(name, '#');
    SplitsAt("/" + name, '#', x);
    TailRefused(lib, authority, "/" + name + "#" + x);
  }

  /** A second path segment is refused. */
  lemma SecondSegmentRefused(lib: Library, authority: string, name: string, x: string)
    requires Visible(authority) && Visible(name) && name != "" && Visible(x)
    ensures Parse(lib, SCHEME + authority + ("/" + name + "/" + x)) == Raised
  {
    hide Parse, NameChar, Before, After, Find, Strip;
    var tail := "/" + name + "/" + x;
    SegmentChars(name, '/', x);
    PathLacks(name, '#');
    PathLacks(name, '?');
    NoDelimiter(x, '#');
    NoDelimiter(x, '?');
    assert forall i :: 0 <= i < |tail| ==> tail[i] != '#' && tail[i] != '?';
    NoneIs(tail, '#');
    NoneIs(tail, '?');
    NoDelimiter(name, '/');
    assert tail[1..] == name + "/" + x && SkipSlashes(tail) == tail[1..];
    assert tail[1..][|name|] == '/';
    TailRefused(lib, authority, tail);
  }

  /** A target without a query name is refused. */
  lemma NamelessRefused(lib: Library, authority: string)
    requires Visible(authority)
    ensures Parse(lib, SCHEME + authority + "/") == Raised
  {
    hide ParseAuthority, DropTabs, NameChar, Strip, ValidateName, Before, After, Find;
    ParseTail(lib, authority, "/");
    RestOfTarget(lib, authority, "/");
    NoneIs("/", '#');
    NoneIs("/", '?');
    assert SkipSlashes("/") == "";
  }

  lemma NoDelimiter(s: string, c: char)
    requires Visible(s) && Delimiter(c)
    ensures forall i :: 0 <= i < |s| ==> s[i] != c
  {
    hide IsSpace;
    forall i | 0 <= i < |s| ensures s[i] != c {
      assert NameChar(s[i]);
    }
  }

  lemma SegmentChars(name: string, c: char, x: string)
    requires Visible(name) && Visible(x) && Delimiter(c)
    ensures var tail := "/" + name + [c] + x; forall i :: 0 <= i < |tail| ==> NameChar(tail[i]) || Delimiter(tail[i])
  {
    hide NameChar;
    var tail := "/" + name + [c] + x;
    forall i | 0 <= i < |tail| ensures NameChar(tail[i]) || Delimiter(tail[i]) {
      if 1 <= i <= |name| {
        assert tail[i] == name[i - 1];
      } else if i > |name| + 1 {
        assert tail[i] == x[i - |name| - 2];
      }
    }
  }

  lemma NoneIs(s: string, c: char)
    ensures (forall i :: 0 <= i < |s| ==> s[i] != c) ==> Find(s, Is(c)) == |s| && Before(s, c) == s && After(s, c) == ""
  {
    if forall i :: 0 <= i < |s| ==> s[i] != c {
      FindIs(s, Is(c), |s|);
      assert s[..|s|] == s;
    }
  }

  // ---- Authorities --------------------------------------------------------------------------------

  /** A port is absent, or a decimal up to 65535, of which 0 counts as absent; anything else is refused. */
  lemma PortOf(n: nat)
    ensures PortNumber("") == Ok(53)
    ensures PortNumber(Decimal(n)) == if n == 0 then Ok(53) else if n <= 65535 then Ok(n) else Raised
  {
    hide Decimal, ParseDecimal;
    ParsePrinted(n);
  }

  lemma PortOfText(s: string, k: nat)
    requires k < |s| && !('0' <= s[k] <= '9')
    ensures PortNumber(s) == Raised
  {
    NotAPort(s, k);
  }

  /** A bare host with a port: the host in lower case and the port. */
  lemma BareAuthority(lib: Library, h: string, n: nat)
    requires ValidName(h) && lib.netloc(h + (":" + Decimal(n)))
    requires !Has(h, ':') && !Has(h, '[') && !Has(h, ']') && !Has(h, '%')
    ensures ParseAuthority(lib, h + (":" + Decimal(n)))
            == if n == 0 then Ok((Lower(h), 53)) else if n <= 65535 then Ok((Lower(h), n)) else Raised
  {
    hide Decimal, BracketsOk, HostInfo, PortNumber, After, Before, HostName, Has, HasCredentials, LastAt, Strip, Lower,
         ValidName, NameChar, ParseDecimal;
    var s := ":" + Decimal(n);
    BareParts(lib, h, n);
    PortOf(n);
    NoZone(h);
    LowerValid(h);
  }

  lemma BareParts(lib: Library, h: string, n: nat)
    requires ValidName(h) && !Has(h, ':') && !Has(h, '[') && !Has(h, ']')
    ensures var netloc := h + (":" + Decimal(n));
            && BracketsOk(lib, netloc) && !HasCredentials(netloc) && HostInfo(netloc) == (h, Decimal(n)) && h != ""
  {
    hide Decimal, BracketsOk, HostInfo, After, Before, HasCredentials, LastAt, ValidName, NameChar, ParseDecimal;
    var s := ":" + Decimal(n);
    NameChars(h);
    NameHasNoAt(h);
    ParsePrinted(n);
    DigitsPlain(Decimal(n));
    LackConcat(h, s, '@');
    LackConcat(h, s, '[');
    LackConcat(h, s, ']');
    NoAt(h + s);
    NoBrackets(lib, h + s);
    assert h[0] != '[';
    BareInfo(lib, h, s);
    AfterColon(Decimal(n));
  }

  lemma DigitsPlain(d: string)
    requires forall i :: 0 <= i < |d| ==> IsDigit(d[i])
    ensures !Has(":" + d, '@') && !Has(":" + d, '[') && !Has(":" + d, ']')
  {
  }

  /** Only an empty user part, or one empty name and one empty password, is no credential. */
  lemma CredentialsExactly(user: string, host: string)
    requires !Has(host, '@')
    ensures HasCredentials(user + "@" + host) <==> user != "" && user != ":"
    ensures !HasCredentials(host)
  {
    LastAtIs(user, host);
    assert (user + "@" + host)[..|user|] == user;
    NoAt(host);
  }

  /** Credentials are refused. */
  lemma CredentialsRefused(lib: Library, user: string, host: string)
    requires user != "" && user != ":" && !Has(host, '@')
    ensures ParseAuthority(lib, user + "@" + host) == Raised
  {
    hide BracketsOk, HostInfo, ValidateName, PortNumber;
    var netloc := user + "@" + host;
    LastAtIs(user, host);
    assert netloc[..|user|] == user;
  }

  lemma {:induction false} LastAtIs(user: string, host: string)
    requires !Has(host, '@')
    ensures LastAt(user + "@" + host) == |user|
  {
    var netloc := user + "@" + host;
    if host != "" {
      var front := host[..|host| - 1];
      assert netloc[..|netloc| - 1] == user + "@" + front;
      assert forall i :: 0 <= i < |front| ==> front[i] == host[i];
      LastAtIs(user, front);
    }
  }

  /** An authority that the library's normalization test refuses, or without a host, is refused. */
  lemma AuthorityRefused(lib: Library, netloc: string)
    requires !lib.netloc(netloc) || HostInfo(netloc).0 == ""
    ensures ParseAuthority(lib, netloc) == Raised
  {
    hide HostName, ValidateName, PortNumber, HostInfo, BracketsOk, HasCredentials;
  }

  lemma NoHost()
    ensures HostInfo("").0 == ""
  {
    hide HostInfo;
    NoAt("");
    InfoBare("");
    NothingBefore();
  }

  /** Brackets must hold a literal that the library accepts. */
  lemma OnlyLiteralsInBrackets(lib: Library, inner: string)
    requires !lib.literal(inner) && !Has(inner, ']') && !Has(inner, '@')
    ensures ParseAuthority(lib, "[" + inner + "]" + "") == Raised
  {
    hide HostName, ValidateName, PortNumber, HostInfo, BracketsOk, HasCredentials, Has;
    assert inner + "" == inner;
    BracketTail(lib, inner, "");
  }

  lemma NothingBefore()
    ensures Before("", ':') == ""
  {
  }

  /** A zone id keeps its case, unlike the address before it. */
  lemma ZoneKeepsCase(address: string, zone: string)
    requires !Has(address, '%')
    ensures HostName(address + "%" + zone) == Lower(address) + "%" + zone
  {
    var s := address + "%" + zone;
    FindIs(s, Is('%'), |address|);
    assert s[..|address|] == address && s[|address|..] == "%" + zone;
  }

  /** Letters of ASCII are lowered, everything else stays. */
  lemma LowerLetters(c: char)
    ensures 'A' <= c <= 'Z' ==> LowerChar(c) == "abcdefghijklmnopqrstuvwxyz"[c as int - 'A' as int]
    ensures !('A' <= c <= 'Z') ==> LowerChar(c) == c
  {
  }

  // ---- The printer --------------------------------------------------------------------------------

  /** What is printed: the scheme, the host, in brackets exactly when it has a colon and does not open with
      one, the port unless it is 53, and the query name. */
  lemma PrintedText(lib: Library, query: string, host: string, port: int)
    requires Format(lib, query, host, port).Ok?
    ensures var h := Strip(host);
            && LawfulName(Strip(query)) && LawfulName(h) && 1 <= port <= 65535
            && Format(lib, query, host, port).value
               == "dns://" + (if Has(h, ':') && h[0] != '[' then "[" + h + "]" else h)
                  + (if port == 53 then "" else ":" + Decimal(port)) + "/" + Strip(query)
  {
    hide Strip, Parse, ValidName, Has, Decimal;
    ValidIsLawful(Strip(query));
    ValidIsLawful(Strip(host));
  }

  /** The printer succeeds exactly when both names are lawful, the port is in range and the parser accepts
      the text. */
  lemma PrintedExactly(lib: Library, query: string, host: string, port: int)
    ensures Format(lib, query, host, port).Ok? <==>
              && LawfulName(Strip(query)) && LawfulName(Strip(host)) && 1 <= port <= 65535
              && Parse(lib, SCHEME + HostText(Strip(host)) + PortText(port) + "/" + Strip(query)).Ok?
  {
    hide Strip, Parse, ValidName, HostText, PortText;
    ValidIsLawful(Strip(query));
    ValidIsLawful(Strip(host));
  }
}
