/**
 Resolver-qualified DNS targets (src/monitoring/validators.py): the printer, the parser, and when
 parsing gives back what was printed. Authority syntax is that of sections 3.2.2 and 3.2.3 of RFC 3986
 as Python's urlsplit reads it.
 */
module DnsTarget {
  import opened Common
  import opened Text

  datatype Target = Plain(query: string) | Explicit(query: string, host: string, port: int)

  // ---- Characters and searching -----------------------------------------------------------------

  predicate Delimiter(c: char) { c == '/' || c == '?' || c == '#' }

  function LowerChar(c: char): char { if 'A' <= c <= 'Z' then (c as int + 32) as char else c }

  function Lower(s: string): (r: string)
    ensures |r| == |s| && forall i :: 0 <= i < |r| ==> r[i] == LowerChar(s[i])
  {
    if s == "" then "" else Lower(s[..|s| - 1]) + [LowerChar(s[|s| - 1])]
  }

  /** The first position whose character satisfies p, or the length. */
  function Find(s: string, p: char -> bool): (k: nat)
    ensures k <= |s| && (k < |s| ==> p(s[k])) && forall i :: 0 <= i < k ==> !p(s[i])
  {
    if s == "" || p(s[0]) then 0 else 1 + Find(s[1..], p)
  }

  lemma FindIs(s: string, p: char -> bool, k: nat)
    requires k <= |s| && (k < |s| ==> p(s[k])) && forall i :: 0 <= i < k ==> !p(s[i])
    ensures Find(s, p) == k
  {
  }

  function Is(c: char): char -> bool { (d: char) => d == c }

  /** s.partition(c): before and after the first c; after is empty if there is none. */
  function Before(s: string, c: char): string { s[..Find(s, Is(c))] }

  function After(s: string, c: char): string {
    var k := Find(s, Is(c));
    if k < |s| then s[k + 1..] else ""
  }

  predicate Has(s: string, c: char) { exists i :: 0 <= i < |s| && s[i] == c }

  /** Everything behind the last '@', and what stands before it. */
  function LastAt(s: string): (k: int)
    ensures -1 <= k < |s| && (k >= 0 ==> s[k] == '@') && forall i :: k < i < |s| ==> s[i] != '@'
  {
    if s == "" then -1 else if s[|s| - 1] == '@' then |s| - 1 else LastAt(s[..|s| - 1])
  }

  // ---- Names ------------------------------------------------------------------------------------

  function TrimDots(s: string): string {
    if s != "" && s[|s| - 1] == '.' then TrimDots(s[..|s| - 1]) else s
  }

  predicate NameChar(c: char) { !IsSpace(c) && !Delimiter(c) && c != '@' }

  predicate ValidName(v: string) {
    v != "" && |TrimDots(v)| <= 253 && forall i :: 0 <= i < |v| ==> NameChar(v[i])
  }

  /** _validate_dns_name */
  function ValidateName(value: string): Result<string> {
    if ValidName(Strip(value)) then Ok(Strip(value)) else Raised
  }

  lemma ValidIsTrimmed(v: string)
    requires ValidName(v)
    ensures Strip(v) == v && ValidateName(v) == Ok(v)
  {
    assert NameChar(v[0]) && NameChar(v[|v| - 1]);
    StripSpec(v);
  }

  // ---- Ports ------------------------------------------------------------------------------------

  /** int(s) for ASCII digits. */
  function ParseDecimal(s: string): nat
    requires forall i :: 0 <= i < |s| ==> IsDigit(s[i])
  {
    if s == "" then 0 else 10 * ParseDecimal(s[..|s| - 1]) + DigitValue(s[|s| - 1])
  }

  function DigitValue(c: char): nat
    requires IsDigit(c)
  {
    c as int - '0' as int
  }

  lemma {:induction false} ParsePrinted(n: nat)
    ensures forall i :: 0 <= i < |Decimal(n)| ==> IsDigit(Decimal(n)[i])
    ensures ParseDecimal(Decimal(n)) == n
  {
    var s := Decimal(n);
    forall i | 0 <= i < |s| ensures IsDigit(s[i]) {
      assert s[i] in s;
    }
    if n >= 10 {
      ParsePrinted(n / 10);
      assert s[..|s| - 1] == Decimal(n / 10);
    } else {
      assert s[..0] == "";
    }
  }

  /** parsed.port or 53, within 1 to 65535; an empty port is absent, and so is the port 0. */
  function PortNumber(s: string): Result<int> {
    if s == "" then Ok(53)
    else if !(forall i :: 0 <= i < |s| ==> IsDigit(s[i])) || ParseDecimal(s) > 65535 then Raised
    else if ParseDecimal(s) == 0 then Ok(53)
    else Ok(ParseDecimal(s))
  }

  // ---- The parser -------------------------------------------------------------------------------

  /** The library's own tests: `literal` accepts the text between brackets as an IP literal, `netloc`
      accepts the authority under NFKC normalization. */
  datatype Library = Library(literal: string -> bool, netloc: string -> bool)

  /** _check_bracketed_netloc: nothing before '[', only a port after ']', an IP literal between. */
  predicate BracketsOk(lib: Library, netloc: string) {
    && (Has(netloc, '[') <==> Has(netloc, ']'))
    && (Has(netloc, '[') ==>
          var info := netloc[LastAt(netloc) + 1..];
          if Has(info, '[') then
            var rest := After(info, '[');
            && Before(info, '[') == ""
            && (After(rest, ']') == "" || After(rest, ']')[0] == ':')
            && lib.literal(Before(rest, ']'))
          else lib.literal(Before(info, ':')))
  }

  /** _hostinfo: host and port text of an authority. */
  function HostInfo(netloc: string): (string, string) {
    var info := netloc[LastAt(netloc) + 1..];
    if Has(info, '[') then
      var rest := After(info, '[');
      (Before(rest, ']'), After(After(rest, ']'), ':'))
    else (Before(info, ':'), After(info, ':'))
  }

  /** .hostname: lower case up to a zone id, the zone id as written. */
  function HostName(host: string): string {
    var k := Find(host, Is('%'));
    Lower(host[..k]) + host[k..]
  }

  /** A non-empty user name or password. */
  predicate HasCredentials(netloc: string) {
    var k := LastAt(netloc);
    k > 0 && netloc[..k] != ":"
  }

  function ParseAuthority(lib: Library, netloc: string): Result<(string, int)> {
    if !BracketsOk(lib, netloc) || !lib.netloc(netloc) || HasCredentials(netloc) then Raised
    else
      var (host, portText) := HostInfo(netloc);
      if host == "" then Raised
      else
        match ValidateName(HostName(host))
        case Raised => Raised
        case Ok(name) =>
          match PortNumber(portText)
          case Raised => Raised
          case Ok(port) => Ok((name, port))
  }

  function SkipSlashes(s: string): string { if s != "" && s[0] == '/' then SkipSlashes(s[1..]) else s }

  /** urlsplit drops these characters wherever they stand. */
  function DropTabs(s: string): string {
    if s == "" then ""
    else
      var c := s[|s| - 1];
      DropTabs(s[..|s| - 1]) + (if c == '\t' || c == '\r' || c == '\n' then "" else [c])
  }

  /** What follows "dns://". */
  function ParseExplicit(lib: Library, text: string): Result<Target> {
    var rest := DropTabs(text);
    var k := Find(rest, Delimiter);
    var netloc, tail := rest[..k], rest[k..];
    var fragment, unfragmented := After(tail, '#'), Before(tail, '#');
    var query, path := After(unfragmented, '?'), Before(unfragmented, '?');
    var name := SkipSlashes(path);
    if query != "" || fragment != "" || name == "" || Has(name, '/') then Raised
    else
      match ParseAuthority(lib, netloc)
      case Raised => Raised
      case Ok((host, port)) =>
        match ValidateName(name)
        case Raised => Raised
        case Ok(q) => Ok(Explicit(q, host, port))
  }

  const SCHEME := "dns://"

  /** parse_dns_target */
  function Parse(lib: Library, target: string): Result<Target> {
    var value := Strip(target);
    if |value| >= 6 && Lower(value[..6]) == SCHEME then ParseExplicit(lib, value[6..])
    else
      match ValidateName(value)
      case Raised => Raised
      case Ok(q) => Ok(Plain(q))
  }

  // ---- The printer ------------------------------------------------------------------------------

  function HostText(host: string): string {
    if Has(host, ':') && (host == "" || host[0] != '[') then "[" + host + "]" else host
  }

  function PortText(port: int): string
    requires port >= 0
  {
    if port == 53 then "" else ":" + Decimal(port)
  }

  /** format_dns_target, which parses its own output before returning it. */
  function Format(lib: Library, query: string, host: string, port: int): Result<string> {
    match ValidateName(query)
    case Raised => Raised
    case Ok(q) =>
      match ValidateName(host)
      case Raised => Raised
      case Ok(h) =>
        if !(1 <= port <= 65535) then Raised
        else
          var target := SCHEME + HostText(h) + PortText(port) + "/" + q;
          if Parse(lib, target).Raised? then Raised else Ok(target)
  }

  // ---- Parsing what was printed -------------------------------------------------------------------

  lemma {:induction false} DropTabsKeeps(s: string)
    requires forall i :: 0 <= i < |s| ==> !IsSpace(s[i])
    ensures DropTabs(s) == s
  {
    if s != "" {
      DropTabsKeeps(s[..|s| - 1]);
      assert !IsSpace(s[|s| - 1]);
    }
  }

  /** A path of one slash and a name has no query, no fragment, and the name as its only segment. */
  lemma PathOfName(q: string)
    requires ValidName(q)
    ensures var tail := "/" + q;
            && Before(tail, '#') == tail && After(tail, '#') == ""
            && Before(tail, '?') == tail && After(tail, '?') == ""
            && SkipSlashes(tail) == q && !Has(q, '/')
  {
    hide IsSpace, TrimDots;
    var tail := "/" + q;
    forall i | 1 <= i < |tail| ensures !Delimiter(tail[i]) {
      assert NameChar(q[i - 1]);
    }
    FindIs(tail, Is('#'), |tail|);
    FindIs(tail, Is('?'), |tail|);
    assert tail[..|tail|] == tail && tail[1..] == q;
    assert NameChar(q[0]);
    forall i | 0 <= i < |q| ensures q[i] != '/' {
      assert NameChar(q[i]);
    }
  }

  /** The authority ends at the slash the printer wrote. */
  lemma AuthorityEnds(authority: string, q: string)
    requires ValidName(q) && forall i :: 0 <= i < |authority| ==> NameChar(authority[i])
    ensures var rest := authority + "/" + q;
            DropTabs(rest) == rest && Find(rest, Delimiter) == |authority|
            && rest[..|authority|] == authority && rest[|authority|..] == "/" + q
  {
    hide IsSpace, TrimDots;
    var rest := authority + "/" + q;
    SlashIsNoSpace();
    forall i | 0 <= i < |rest| ensures !IsSpace(rest[i]) {
      if i < |authority| {
        assert NameChar(authority[i]);
      } else if i > |authority| {
        assert NameChar(q[i - |authority| - 1]);
      }
    }
    DropTabsKeeps(rest);
    forall i | 0 <= i < |authority| ensures !Delimiter(rest[i]) {
      assert NameChar(authority[i]);
    }
    FindIs(rest, Delimiter, |authority|);
  }

  lemma SlashIsNoSpace()
    ensures !IsSpace('/')
  {
  }

  lemma ParseExplicitPrinted(lib: Library, authority: string, q: string)
    requires ValidName(q) && forall i :: 0 <= i < |authority| ==> NameChar(authority[i])
    ensures ParseExplicit(lib, authority + "/" + q)
            == match ParseAuthority(lib, authority)
               case Raised => Raised
               case Ok((host, port)) => Ok(Explicit(q, host, port))
  {
    hide ParseAuthority, NameChar, ValidateName, Find, DropTabs, Before, After, SkipSlashes, Has;
    PathOfName(q);
    AuthorityEnds(authority, q);
    ValidIsTrimmed(q);
  }

  lemma SchemeIsLower()
    ensures Lower(SCHEME) == SCHEME
  {
  }

  lemma TargetTrimmed(authority: string, q: string)
    requires ValidName(q)
    ensures Strip(SCHEME + authority + "/" + q) == SCHEME + authority + "/" + q
  {
    hide TrimDots, Delimiter, Strip;
    var target := SCHEME + authority + "/" + q;
    assert target[0] == 'd' && target[|target| - 1] == q[|q| - 1];
    assert NameChar(q[|q| - 1]);
    StripSpec(target);
  }

  /** A printed target splits into its authority and its query name. */
  lemma ParsePrintedTarget(lib: Library, authority: string, q: string)
    requires ValidName(q) && forall i :: 0 <= i < |authority| ==> NameChar(authority[i])
    ensures Parse(lib, SCHEME + authority + "/" + q)
            == match ParseAuthority(lib, authority)
               case Raised => Raised
               case Ok((host, port)) => Ok(Explicit(q, host, port))
  {
    hide ParseAuthority, ParseExplicit, NameChar, ValidName, Strip, ValidateName, Lower;
    var target := SCHEME + authority + "/" + q;
    TargetTrimmed(authority, q);
    SchemeIsLower();
    assert target[..6] == SCHEME && target[6..] == authority + "/" + q;
    ParseExplicitPrinted(lib, authority, q);
  }

  /** Brackets removed when they enclose the whole host. */
  predicate Bracketed(h: string) { |h| >= 2 && h[0] == '[' && h[|h| - 1] == ']' }

  function Unbracket(h: string): string { if Bracketed(h) then h[1..|h| - 1] else h }

  lemma PortSuffix(port: int)
    requires 1 <= port <= 65535
    ensures var s := PortText(port);
            && (s == "" || s[0] == ':') && After(s, ':') == (if port == 53 then "" else Decimal(port))
            && forall i :: 0 <= i < |s| ==> s[i] == ':' || IsDigit(s[i])
  {
    hide IsDigit, Decimal, ParseDecimal, After;
    ParsePrinted(port);
    if port != 53 {
      AfterColon(Decimal(port));
    } else {
      AfterNothing();
    }
  }

  lemma AfterColon(text: string)
    ensures After(":" + text, ':') == text
  {
    FindIs(":" + text, Is(':'), 0);
    assert (":" + text)[1..] == text;
  }

  lemma AfterNothing()
    ensures After("", ':') == ""
  {
  }

  /** The printed port is read back. */
  lemma PortReadBack(port: int)
    requires 1 <= port <= 65535
    ensures PortNumber(After(PortText(port), ':')) == Ok(port)
  {
    hide After, PortText;
    PortSuffix(port);
    ParsePrinted(port);
  }

  lemma NoAt(netloc: string)
    requires forall i :: 0 <= i < |netloc| ==> netloc[i] != '@'
    ensures LastAt(netloc) == -1 && netloc[LastAt(netloc) + 1..] == netloc && !HasCredentials(netloc)
  {
  }

  lemma NoZone(host: string)
    requires !Has(host, '%')
    ensures HostName(host) == Lower(host)
  {
    FindIs(host, Is('%'), |host|);
    assert host[..|host|] == host && host[|host|..] == "";
  }

  /** Text that no port can be. */
  lemma NotAPort(s: string, k: nat)
    requires k < |s| && !IsDigit(s[k])
    ensures PortNumber(s) == Raised
  {
  }

  /** The authority "[" + inner + "]" + after, with no ']' inside: inner is the host, and after must be
      empty or a port. */
  lemma BracketedAuthority(inner: string, after: string)
    requires !Has(inner, ']') && !Has(inner + after, '@')
    ensures var netloc := "[" + inner + "]" + after;
            && Has(netloc, '[') && Has(netloc, ']')
            && LastAt(netloc) == -1 && netloc[LastAt(netloc) + 1..] == netloc && !HasCredentials(netloc)
            && Before(netloc, '[') == "" && After(netloc, '[') == inner + "]" + after
            && Before(inner + "]" + after, ']') == inner && After(inner + "]" + after, ']') == after
            && HostInfo(netloc) == (inner, After(after, ':'))
  {
    hide Before, After;
    var netloc := "[" + inner + "]" + after;
    BracketedHasNoAt(inner, after);
    NoAt(netloc);
    BracketedParts(inner, after);
    assert netloc[0] == '[' && netloc[|inner| + 1] == ']';
  }

  lemma BracketedHasNoAt(inner: string, after: string)
    requires !Has(inner + after, '@')
    ensures var netloc := "[" + inner + "]" + after; forall i :: 0 <= i < |netloc| ==> netloc[i] != '@'
  {
    var netloc, text := "[" + inner + "]" + after, inner + after;
    forall i | 0 <= i < |netloc| ensures netloc[i] != '@' {
      if 1 <= i <= |inner| {
        assert netloc[i] == text[i - 1];
      } else if i > |inner| + 1 {
        assert netloc[i] == text[i - 2];
      }
    }
  }

  lemma BracketedParts(inner: string, after: string)
    requires !Has(inner, ']')
    ensures var netloc, rest := "[" + inner + "]" + after, inner + "]" + after;
            && Before(netloc, '[') == "" && After(netloc, '[') == rest
            && Before(rest, ']') == inner && After(rest, ']') == after
  {
    var netloc, rest := "[" + inner + "]" + after, inner + "]" + after;
    FindIs(netloc, Is('['), 0);
    assert netloc[1..] == rest;
    FindIs(rest, Is(']'), |inner|);
    assert rest[..|inner|] == inner && rest[|inner| + 1..] == after;
  }

  /** A port text that starts a port part and runs over a closing bracket is refused. */
  lemma PortWithBracket(front: string, s: string)
    requires front + "]" + s == "" || (front + "]" + s)[0] == ':'
    ensures PortNumber(After(front + "]" + s, ':')) == Raised
  {
    var after := front + "]" + s;
    assert after[|front|] == ']';
    FindIs(after, Is(':'), 0);
    var port := after[1..];
    assert port[|front| - 1] == ']';
    NotAPort(port, |front| - 1);
  }

  lemma {:induction false} TrimDotsLower(h: string)
    ensures |TrimDots(Lower(h))| == |TrimDots(h)|
  {
    if h != "" {
      TrimDotsLower(h[..|h| - 1]);
      assert Lower(h)[..|h| - 1] == Lower(h[..|h| - 1]);
    }
  }

  lemma LowerValid(h: string)
    requires ValidName(h)
    ensures ValidateName(Lower(h)) == Ok(Lower(h))
  {
    TrimDotsLower(h);
    forall i | 0 <= i < |h| ensures NameChar(Lower(h)[i]) {
      assert NameChar(h[i]);
    }
    ValidIsTrimmed(Lower(h));
  }

  /** What a successful reading of an authority is made of. */
  lemma AuthorityParts(lib: Library, netloc: string)
    requires ParseAuthority(lib, netloc).Ok?
    ensures BracketsOk(lib, netloc) && HostInfo(netloc).0 != ""
    ensures ValidateName(HostName(HostInfo(netloc).0)) == Ok(ParseAuthority(lib, netloc).value.0)
    ensures PortNumber(HostInfo(netloc).1) == Ok(ParseAuthority(lib, netloc).value.1)
  {
    hide BracketsOk, HostInfo, HostName, ValidateName, PortNumber, HasCredentials;
  }

  lemma LackConcat(a: string, b: string, c: char)
    requires !Has(a, c) && !Has(b, c)
    ensures !Has(a + b, c)
  {
  }

  /** The printed port text holds neither '@' nor a bracket. */
  lemma PortTextChars(port: int)
    requires 1 <= port <= 65535
    ensures !Has(PortText(port), '@') && !Has(PortText(port), '[') && !Has(PortText(port), ']')
  {
    PortSuffix(port);
  }

  lemma NameHasNoAt(h: string)
    requires ValidName(h)
    ensures !Has(h, '@')
  {
    hide IsSpace, TrimDots;
    forall i | 0 <= i < |h| ensures h[i] != '@' {
      assert NameChar(h[i]);
    }
  }

  lemma WrappedNoAt(h: string, s: string, k: nat)
    requires !Has(h, '@') && !Has(s, '@') && k < |h|
    ensures !Has(h[..k] + (h[k + 1..] + "]" + s), '@')
  {
    var inner, after := h[..k], h[k + 1..] + "]" + s;
    forall i | 0 <= i < |after| ensures after[i] != '@' {
      if i < |h| - k - 1 {
        assert after[i] == h[k + 1 + i];
      } else if i > |h| - k - 1 {
        assert after[i] == s[i - (|h| - k)];
      }
    }
    LackConcat(inner, after, '@');
  }

  lemma HeadLacks(h: string, c: char)
    ensures !Has(h[..Find(h, Is(c))], c)
  {
  }

  /** A host with a closing bracket of its own cannot be enclosed in brackets and still be read. */
  lemma WrappedWithBracket(lib: Library, h: string, s: string, k: nat)
    requires !Has(h, '@') && !Has(s, '@') && k == Find(h, Is(']')) && k < |h|
    ensures !(BracketsOk(lib, "[" + h + "]" + s) && PortNumber(HostInfo("[" + h + "]" + s).1).Ok?)
  {
    hide PortNumber, After, Before, BracketsOk, HostInfo, Has, HasCredentials, LastAt;
    var inner, front := h[..k], h[k + 1..];
    var after := front + "]" + s;
    assert "[" + h + "]" + s == "[" + inner + "]" + after;
    HeadLacks(h, ']');
    WrappedNoAt(h, s, k);
    BracketedAuthority(inner, after);
    BracketTail(lib, inner, after);
    if after[0] == ':' {
      PortWithBracket(front, s);
    }
  }

  /** Case 1: a host with a colon that the printer encloses in brackets. */
  lemma WrappedInfo(lib: Library, h: string, s: string)
    requires !Has(h, '@') && !Has(s, '@')
    requires BracketsOk(lib, "[" + h + "]" + s) && PortNumber(HostInfo("[" + h + "]" + s).1).Ok?
    ensures HostInfo("[" + h + "]" + s) == (h, After(s, ':'))
  {
    hide PortNumber, After, Before, BracketsOk, HostInfo, HasCredentials, LastAt;
    var k := Find(h, Is(']'));
    if k < |h| {
      WrappedWithBracket(lib, h, s, k);
    } else {
      LackConcat(h, s, '@');
      BracketedAuthority(h, s);
    }
  }

  /** Case 2: a host without brackets in front and without a colon, printed as it is. */
  lemma BareInfo(lib: Library, h: string, s: string)
    requires !Has(h, '@') && !Has(s, '@') && !Has(s, '[') && !Has(h, ':') && h != "" && h[0] != '['
    requires s == "" || s[0] == ':'
    requires BracketsOk(lib, h + s)
    ensures HostInfo(h + s) == (h, After(s, ':'))
  {
    var netloc := h + s;
    LackConcat(h, s, '@');
    assert forall i :: 0 <= i < |netloc| ==> netloc[i] != '@';
    hide BracketsOk, HostInfo, Before, After, HasCredentials, Has;
    NoAt(netloc);
    OpensInside(lib, netloc);
    InfoBare(netloc);
    SplitAtColon(h, s);
  }

  /** An acceptable authority does not have its first '[' behind its start. */
  lemma OpensInside(lib: Library, netloc: string)
    requires BracketsOk(lib, netloc) && LastAt(netloc) == -1 && netloc != "" && netloc[0] != '['
    ensures !Has(netloc, '[')
  {
    hide After;
    assert netloc[LastAt(netloc) + 1..] == netloc;
    assert Before(netloc, '[') == "" ==> !Has(netloc, '[');
  }

  lemma InfoBare(netloc: string)
    requires LastAt(netloc) == -1 && !Has(netloc, '[')
    ensures HostInfo(netloc) == (Before(netloc, ':'), After(netloc, ':'))
  {
    hide Before, After;
    assert netloc[LastAt(netloc) + 1..] == netloc;
  }

  lemma SplitAtColon(h: string, s: string)
    requires !Has(h, ':') && (s == "" || s[0] == ':')
    ensures Before(h + s, ':') == h && After(h + s, ':') == After(s, ':')
  {
    var netloc := h + s;
    FindIs(netloc, Is(':'), |h|);
    assert netloc[..|h|] == h;
    if s != "" {
      FindIs(s, Is(':'), 0);
      assert netloc[|h| + 1..] == s[1..];
    }
  }

  lemma HasBoth(lib: Library, netloc: string)
    requires BracketsOk(lib, netloc) && netloc != "" && netloc[0] == '['
    ensures Has(netloc, ']')
  {
  }

  /** Splitting "[" + inner + "]" + rest at its first ']'. */
  lemma OpenSplit(h: string, s: string, k: nat)
    requires !Has(h, '@') && !Has(s, '@') && !Has(s, ']') && h != "" && h[0] == '['
    requires k == Find(h[1..], Is(']')) && Has(h + s, ']')
    ensures k + 1 < |h| && h == "[" + h[1..][..k] + "]" + h[k + 2..]
    ensures !Has(h[1..][..k], ']') && !Has(h[1..][..k] + (h[k + 2..] + s), '@')
  {
    HasConcat(h, s, ']');
    var body, tail := h[1..], h[k + 2..];
    var i :| 0 <= i < |h| && h[i] == ']';
    assert body[i - 1] == ']';
    forall j | 0 <= j < |tail| ensures tail[j] != '@' {
      assert tail[j] == h[k + 2 + j];
    }
    LackConcat(tail, s, '@');
    LackConcat(body[..k], tail + s, '@');
  }

  lemma HasConcat(a: string, b: string, c: char)
    requires Has(a + b, c)
    ensures Has(a, c) || Has(b, c)
  {
    var i :| 0 <= i < |a + b| && (a + b)[i] == c;
    assert if i < |a| then a[i] == c else b[i - |a|] == c;
  }

  /** Case 3: a host that starts with '[', printed as it is, with k the place of the first ']'. */
  lemma OpenInfo(lib: Library, h: string, s: string, k: nat)
    requires !Has(h, '@') && !Has(s, '@') && !Has(s, ']') && h != "" && h[0] == '['
    requires k == Find(h[1..], Is(']')) && Has(h + s, ']')
    requires BracketsOk(lib, h + s) && PortNumber(HostInfo(h + s).1).Ok?
    ensures k < |h| - 1 && HostInfo(h + s).0 == h[1..][..k]
    ensures h[|h| - 1] == ']' <==> k + 2 == |h|
    ensures k + 2 == |h| ==> HostInfo(h + s).1 == After(s, ':')
  {
    hide BracketsOk, HostInfo, Before, After, PortNumber, Find;
    OpenSplit(h, s, k);
    var inner, rest := h[1..][..k], h[k + 2..];
    var after := rest + s;
    assert h + s == "[" + inner + "]" + after;
    BracketedAuthority(inner, after);
    BracketTail(lib, inner, after);
    if rest == "" {
      assert after == s;
    } else if h[|h| - 1] == ']' {
      var front := rest[..|rest| - 1];
      assert after == front + "]" + s;
      PortWithBracket(front, s);
    }
  }

  /** What BracketsOk says of the part behind the closing bracket. */
  lemma BracketTail(lib: Library, inner: string, after: string)
    requires !Has(inner, ']') && !Has(inner + after, '@')
    ensures BracketsOk(lib, "[" + inner + "]" + after) <==> (after == "" || after[0] == ':') && lib.literal(inner)
  {
    hide Before, After;
    BracketedAuthority(inner, after);
  }

  /** A host without white space is still trimmed after lowering. */
  lemma LowerTrimmed(x: string)
    requires forall i :: 0 <= i < |x| ==> NameChar(x[i])
    ensures Strip(Lower(x)) == Lower(x)
  {
    hide Strip, NameChar, LowerChar, IsSpace;
    StripSpec(Lower(x));
    if x != "" {
      LowerKeepsVisible(x[0]);
      LowerKeepsVisible(x[|x| - 1]);
    }
  }

  lemma LowerKeepsVisible(c: char)
    requires NameChar(c)
    ensures !IsSpace(LowerChar(c)) && NameChar(LowerChar(c))
  {
  }

  /** Reading an authority whose host text is x and whose port text was printed. */
  lemma HostRead(lib: Library, netloc: string, x: string, portText: string)
    requires ParseAuthority(lib, netloc).Ok? && HostInfo(netloc) == (x, portText)
    requires !Has(x, '%') && forall i :: 0 <= i < |x| ==> NameChar(x[i])
    ensures ParseAuthority(lib, netloc).value.0 == Lower(x)
    ensures PortNumber(portText) == Ok(ParseAuthority(lib, netloc).value.1)
  {
    hide ParseAuthority, BracketsOk, HostInfo, PortNumber, NameChar, Strip, Lower;
    AuthorityParts(lib, netloc);
    NoZone(x);
    LowerTrimmed(x);
  }

  /** The host text of a host that starts with '[', and the port behind it. */
  lemma OpenHost(lib: Library, h: string, s: string) returns (inner: string)
    requires !Has(h, '@') && !Has(s, '@') && !Has(s, ']') && h != "" && h[0] == '['
    requires BracketsOk(lib, h + s) && PortNumber(HostInfo(h + s).1).Ok?
    ensures |inner| < |h| && inner == h[1..][..|inner|] && HostInfo(h + s).0 == inner
    ensures h[|h| - 1] == ']' ==> inner == h[1..|h| - 1] && HostInfo(h + s).1 == After(s, ':')
  {
    hide BracketsOk, HostInfo, Before, After, PortNumber;
    HasBoth(lib, h + s);
    var k := Find(h[1..], Is(']'));
    OpenInfo(lib, h, s, k);
    inner := h[1..][..k];
  }

  /** It reads back unbracketed if its last character is the closing bracket, and otherwise as something
      shorter than itself. */
  lemma OpenReadBack(lib: Library, h: string, port: int)
    requires ValidName(h) && !Has(h, '%') && 1 <= port <= 65535 && h[0] == '['
    requires ParseAuthority(lib, h + PortText(port)).Ok?
    ensures var (host, number) := ParseAuthority(lib, h + PortText(port)).value;
            (host == Lower(Unbracket(h)) && number == port) <==> h[|h| - 1] == ']'
  {
    hide ParseAuthority, BracketsOk, HostInfo, PortNumber, ValidName, PortText, After, Has, NameChar, Lower, Unbracket;
    var s := PortText(port);
    AuthorityParts(lib, h + s);
    NameHasNoAt(h);
    NameChars(h);
    PortTextChars(port);
    PortReadBack(port);
    var inner := OpenHost(lib, h, s);
    InnerChars(h, inner, |inner|);
    HostRead(lib, h + s, inner, HostInfo(h + s).1);
    UnbracketOpen(h, inner);
  }

  lemma UnbracketOpen(h: string, inner: string)
    requires h != "" && h[0] == '[' && |inner| < |h| && (h[|h| - 1] == ']' ==> inner == h[1..|h| - 1])
    requires |h| == 1 ==> h[0] != ']'
    ensures Lower(inner) == Lower(Unbracket(h)) <==> h[|h| - 1] == ']'
  {
    assert |Lower(inner)| == |inner| && |Lower(Unbracket(h))| == |Unbracket(h)|;
  }

  /** The three cases together: what the printed authority of a valid host reads back as. */
  lemma AuthorityReadBack(lib: Library, h: string, port: int)
    requires ValidName(h) && !Has(h, '%') && 1 <= port <= 65535
    requires ParseAuthority(lib, HostText(h) + PortText(port)).Ok?
    ensures var (host, number) := ParseAuthority(lib, HostText(h) + PortText(port)).value;
            (host == Lower(Unbracket(h)) && number == port) <==> h[0] != '[' || h[|h| - 1] == ']'
  {
    hide ParseAuthority, BracketsOk, HostInfo, PortNumber, IsSpace, TrimDots, PortText, Delimiter, After, NameChar;
    var s := PortText(port);
    if h[0] == '[' {
      OpenReadBack(lib, h, port);
    } else {
      var netloc := HostText(h) + s;
      AuthorityParts(lib, netloc);
      NameHasNoAt(h);
      PortTextChars(port);
      PortSuffix(port);
      PortReadBack(port);
      if Has(h, ':') {
        WrappedInfo(lib, h, s);
      } else {
        BareInfo(lib, h, s);
      }
      HostRead(lib, netloc, h, After(s, ':'));
    }
  }

  lemma InnerChars(h: string, inner: string, k: nat)
    requires ValidName(h) && !Has(h, '%') && k < |h| && inner == h[1..][..k]
    ensures !Has(inner, '%') && forall i :: 0 <= i < |inner| ==> NameChar(inner[i])
  {
    hide IsSpace, TrimDots, Delimiter;
    forall i | 0 <= i < |inner| ensures inner[i] != '%' && NameChar(inner[i]) {
      assert inner[i] == h[i + 1];
    }
  }

  /** Whenever formatting succeeds for a host without a zone id, the target parses to the stripped query
      name. Host and port come back as the stripped, lower-cased, unbracketed host and the given port if
      and only if nothing follows the closing bracket of a host that starts with one. */
  lemma RoundTrip(lib: Library, query: string, host: string, port: int)
    requires Format(lib, query, host, port).Ok? && !Has(host, '%')
    ensures var h := Strip(host);
            var parsed := Parse(lib, Format(lib, query, host, port).value);
            && h != "" && parsed.Ok? && parsed.value.Explicit? && parsed.value.query == Strip(query)
            && (parsed.value == Explicit(Strip(query), Lower(Unbracket(h)), port) <==> h[0] != '[' || h[|h| - 1] == ']')
  {
    hide ParseAuthority, Parse, Strip, IsSpace, HostText, PortText, TrimDots, NameChar, Unbracket, Lower;
    var q, h := Strip(query), Strip(host);
    StripHas(host, '%');
    var authority := HostText(h) + PortText(port);
    AuthorityChars(h, port);
    assert SCHEME + HostText(h) + PortText(port) + "/" + q == SCHEME + authority + "/" + q;
    ParsePrintedTarget(lib, authority, q);
    AuthorityReadBack(lib, h, port);
  }

  lemma StripHas(s: string, c: char)
    requires !Has(s, c)
    ensures !Has(Strip(s), c)
  {
    StripSpec(s);
    var r := Strip(s);
    var head: string, tail: string :| s == head + r + tail && Blank(head) && Blank(tail);
    forall i | 0 <= i < |r| ensures r[i] != c {
      assert s[|head| + i] == r[i];
    }
  }

  lemma AuthorityChars(h: string, port: int)
    requires ValidName(h) && 1 <= port <= 65535
    ensures var a := HostText(h) + PortText(port);
            a != "" && forall i :: 0 <= i < |a| ==> NameChar(a[i])
  {
    hide TrimDots, PortText;
    PortSuffix(port);
    var t, s := HostText(h), PortText(port);
    forall i | 0 <= i < |t| ensures NameChar(t[i]) {
      if t != h && 1 <= i <= |h| {
        assert t[i] == h[i - 1];
      }
    }
  }

  /** A bracketed IP literal that carries its own port is formatted without complaint for the default
      port, and reads back with the carried port instead. */
  lemma CarriedPortWins(lib: Library, q: string, inner: string, n: nat)
    requires var h := "[" + inner + "]" + (":" + Decimal(n)); ValidName(h) && lib.netloc(h)
    requires ValidName(q) && ValidName(inner) && !Has(inner, ']') && !Has(inner, '%') && lib.literal(inner)
    requires 1 <= n <= 65535
    ensures var h := "[" + inner + "]" + (":" + Decimal(n));
            && Format(lib, q, h, 53) == Ok(SCHEME + h + "/" + q)
            && Parse(lib, SCHEME + h + "/" + q) == Ok(Explicit(q, Lower(inner), n))
  {
    hide Parse, ValidName, Lower, Strip, PortNumber, ParseAuthority, Decimal;
    var after := ":" + Decimal(n);
    var h := "[" + inner + "]" + after;
    CarriedAuthority(lib, inner, n);
    ValidIsTrimmed(h);
    ValidIsTrimmed(q);
    NameChars(h);
    assert HostText(h) == h && PortText(53) == "";
    assert SCHEME + HostText(h) + PortText(53) + "/" + q == SCHEME + h + "/" + q;
    ParsePrintedTarget(lib, h, q);
  }

  lemma NameChars(h: string)
    requires ValidName(h)
    ensures h != "" && forall i :: 0 <= i < |h| ==> NameChar(h[i])
  {
  }

  lemma CarriedAuthority(lib: Library, inner: string, n: nat)
    requires var h := "[" + inner + "]" + (":" + Decimal(n)); ValidName(h) && lib.netloc(h)
    requires ValidName(inner) && !Has(inner, ']') && !Has(inner, '%') && lib.literal(inner)
    requires 1 <= n <= 65535
    ensures ParseAuthority(lib, "[" + inner + "]" + (":" + Decimal(n))) == Ok((Lower(inner), n))
  {
    hide ValidName, Lower, Strip, Decimal, BracketsOk, HostInfo, NameChar, PortNumber, After, Before, HostName;
    var after := ":" + Decimal(n);
    var h := "[" + inner + "]" + after;
    NameHasNoAt(h);
    NameChars(inner);
    forall j | 0 <= j < |inner + after| ensures (inner + after)[j] != '@' {
      assert (inner + after)[j] == if j < |inner| then h[j + 1] else h[j + 2];
    }
    BracketedAuthority(inner, after);
    BracketTail(lib, inner, after);
    CarriedPort(n);
    NoZone(inner);
    LowerValid(inner);
  }

  lemma CarriedPort(n: nat)
    requires 1 <= n <= 65535
    ensures PortNumber(After(":" + Decimal(n), ':')) == Ok(n)
  {
    hide Decimal, After;
    AfterColon(Decimal(n));
    ParsePrinted(n);
  }

  /** The authority "[::1]:5300" is an instance: asked for port 53, the target names port 5300. */
  lemma CarriedPortExample(lib: Library)
    requires lib.literal("::1") && lib.netloc("[" + "::1" + "]" + (":" + Decimal(5300)))
    ensures var h := "[" + "::1" + "]" + (":" + Decimal(5300));
            && Format(lib, "example", h, 53).Ok?
            && Parse(lib, Format(lib, "example", h, 53).value) == Ok(Explicit("example", Lower("::1"), 5300))
  {
    hide Parse, Lower, Strip, PortNumber, ParseAuthority, Format;
    ExampleNames();
    CarriedPortWins(lib, "example", "::1", 5300);
  }

  lemma ExampleNames()
    ensures ValidName("example") && ValidName("::1") && !Has("::1", ']') && !Has("::1", '%')
    ensures ValidName("[" + "::1" + "]" + (":" + Decimal(5300)))
  {
    hide ParseDecimal, IsSpace, TrimDots;
    var d := Decimal(5300);
    ParsePrinted(5300);
    assert Pow10(4) == 10_000;
    DecimalLength(5300, 4);
    var h := "[" + "::1" + "]" + (":" + d);
    assert h[|h| - 1] == d[|d| - 1];
    forall i | 0 <= i < |h| ensures NameChar(h[i]) {
      if i >= 6 {
        assert h[i] == d[i - 6];
        DigitIsNameChar(h[i]);
      } else {
        BracketIsNameChar(h[i]);
      }
    }
    BracketIsNameChar(':');
    BracketIsNameChar('1');
    LettersAreNameChars();
    TrimDotsShorter(h);
    TrimDotsShorter("example");
    TrimDotsShorter("::1");
  }

  lemma DigitIsNameChar(c: char)
    requires IsDigit(c)
    ensures NameChar(c)
  {
  }

  lemma BracketIsNameChar(c: char)
    requires c == '[' || c == ']' || c == ':' || c == '1'
    ensures NameChar(c)
  {
  }

  lemma LettersAreNameChars()
    ensures forall c :: 'a' <= c <= 'z' ==> NameChar(c)
  {
  }

  lemma {:induction false} TrimDotsShorter(s: string)
    ensures |TrimDots(s)| <= |s|
  {
    if s != "" {
      TrimDotsShorter(s[..|s| - 1]);
    }
  }

  // ---- Formatting is idempotent -------------------------------------------------------------------

  /** What the library's literals begin with is neither white space nor a bracket (an address begins with
      a digit or a colon, an IPvFuture with 'v'). */
  ghost predicate LiteralsPlain(lib: Library) {
    forall x :: lib.literal(x) ==> x != "" && !IsSpace(x[0]) && x[0] != '['
  }

  lemma LowerStart(c: char)
    requires !IsSpace(c) && c != '['
    ensures !IsSpace(LowerChar(c)) && LowerChar(c) != '['
  {
  }

  /** Where in s the stripped text stands. */
  lemma StripPlace(s: string) returns (d: nat)
    ensures d + |Strip(s)| <= |s|
    ensures forall i :: 0 <= i < |Strip(s)| ==> Strip(s)[i] == s[d + i]
    ensures forall i :: 0 <= i < |s| ==> (d <= i < d + |Strip(s)|) || IsSpace(s[i])
  {
    hide Strip, IsSpace;
    StripSpec(s);
    var head: string, tail: string :| s == head + Strip(s) + tail && Blank(head) && Blank(tail);
    d := |head|;
    forall i | 0 <= i < |s| ensures (d <= i < d + |Strip(s)|) || IsSpace(s[i]) {
      assert i < d ==> s[i] == head[i];
      assert i >= d + |Strip(s)| ==> s[i] == tail[i - d - |Strip(s)|];
    }
  }

  /** Stripping keeps a visible first character. */
  lemma StripKeepsStart(s: string)
    requires s != "" && !IsSpace(s[0])
    ensures Strip(s) != "" && Strip(s)[0] == s[0]
  {
    hide Strip, IsSpace;
    var d := StripPlace(s);
  }

  /** The name read from an acceptable authority does not begin with '['. */
  lemma NameStart(lib: Library, netloc: string)
    requires LiteralsPlain(lib) && BracketsOk(lib, netloc)
    ensures var name := Strip(HostName(HostInfo(netloc).0)); name == "" || name[0] != '['
  {
    hide Strip, LowerChar, IsSpace, After, Before, HostName, LastAt;
    var info, host := netloc[LastAt(netloc) + 1..], HostInfo(netloc).0;
    if Has(info, '[') {
      InfoHas(netloc, '[');
      LiteralStart(host);
    } else {
      BeforeHasNo(info, ':', '[');
      HostNamePlain(host);
      StripHas(HostName(host), '[');
    }
  }

  lemma InfoHas(netloc: string, c: char)
    requires Has(netloc[LastAt(netloc) + 1..], c)
    ensures Has(netloc, c)
  {
    var info := netloc[LastAt(netloc) + 1..];
    var i :| 0 <= i < |info| && info[i] == c;
    assert netloc[LastAt(netloc) + 1 + i] == c;
  }

  lemma BeforeHasNo(s: string, c: char, d: char)
    requires !Has(s, d)
    ensures !Has(Before(s, c), d)
  {
    var r := Before(s, c);
    assert forall i :: 0 <= i < |r| ==> r[i] == s[i];
  }

  lemma LiteralStart(host: string)
    requires host != "" && !IsSpace(host[0]) && host[0] != '['
    ensures var name := Strip(HostName(host)); name != "" && name[0] != '['
  {
    hide Strip, LowerChar, IsSpace;
    LowerStart(host[0]);
    assert HostName(host)[0] == host[0] || HostName(host)[0] == LowerChar(host[0]);
    StripKeepsStart(HostName(host));
  }

  lemma HostNamePlain(host: string)
    requires !Has(host, '[')
    ensures !Has(HostName(host), '[')
  {
    var name := HostName(host);
    forall i | 0 <= i < |name| ensures name[i] != '[' {
      assert host[i] != '[';
    }
  }

  /** Stripping keeps a '%'. */
  lemma StripKeepsPercent(s: string, k: nat)
    requires k < |s| && s[k] == '%'
    ensures Has(Strip(s), '%')
  {
    hide Strip, IsSpace;
    PercentIsNoSpace();
    var d := StripPlace(s);
    assert Strip(s)[k - d] == '%';
  }

  lemma LowerTwice(c: char)
    ensures LowerChar(LowerChar(c)) == LowerChar(c)
  {
  }

  lemma StripKeepsLower(s: string)
    ensures Lower(Strip(Lower(s))) == Strip(Lower(s))
  {
    hide Strip, IsSpace, LowerChar;
    var r := Strip(Lower(s));
    var d := StripPlace(Lower(s));
    forall i | 0 <= i < |r| ensures Lower(r)[i] == r[i] {
      LowerTwice(s[d + i]);
    }
  }

  /** Without a zone id the name is in lower case. */
  lemma NameLowered(host: string)
    requires !Has(Strip(HostName(host)), '%')
    ensures Lower(Strip(HostName(host))) == Strip(HostName(host))
  {
    hide Strip, IsSpace, LowerChar;
    var k := Find(host, Is('%'));
    if k < |host| {
      StripKeepsPercent(HostName(host), k);
    } else {
      assert !Has(host, '%');
      NoZone(host);
      StripKeepsLower(host);
    }
  }

  lemma PercentIsNoSpace()
    ensures !IsSpace('%')
  {
  }

  /** What an authority can be read as: a lawful lower-case name not opened by a bracket, a port in range. */
  lemma ParsedHostPlain(lib: Library, netloc: string)
    requires LiteralsPlain(lib) && ParseAuthority(lib, netloc).Ok?
    ensures var (h, port) := ParseAuthority(lib, netloc).value;
            && ValidName(h) && Strip(h) == h && h[0] != '[' && 1 <= port <= 65535
            && (!Has(h, '%') ==> Lower(h) == h)
  {
    hide ParseAuthority, BracketsOk, HostInfo, HostName, ValidName, Strip, ParseDecimal, Lower;
    AuthorityParts(lib, netloc);
    NameStart(lib, netloc);
    var h := ParseAuthority(lib, netloc).value.0;
    ValidIsTrimmed(h);
    NameChars(h);
    if !Has(h, '%') {
      NameLowered(HostInfo(netloc).0);
    }
  }

  /** What any text can be read as, when it names a server. */
  lemma ParsedPlain(lib: Library, text: string)
    requires LiteralsPlain(lib) && Parse(lib, text).Ok? && Parse(lib, text).value.Explicit?
    ensures var t := Parse(lib, text).value;
            && Strip(t.query) == t.query && Strip(t.host) == t.host && t.host != "" && t.host[0] != '['
            && (!Has(t.host, '%') ==> Lower(t.host) == t.host)
  {
    hide ParseAuthority, ValidName, Strip, Lower, DropTabs, Find, Before, After, SkipSlashes;
    var rest := DropTabs(Strip(text)[6..]);
    ParsedHostPlain(lib, rest[..Find(rest, Delimiter)]);
    ValidIsTrimmed(Parse(lib, text).value.query);
    NameChars(Parse(lib, text).value.host);
  }

  /** Formatting a parsed explicit target, if it succeeds, gives a text that parses to the same query, host
      and port: a second round of parsing and formatting returns the same text. */
  lemma FormattingIsIdempotent(lib: Library, text: string)
    requires LiteralsPlain(lib) && Parse(lib, text).Ok? && Parse(lib, text).value.Explicit?
    requires var t := Parse(lib, text).value; !Has(t.host, '%') && Format(lib, t.query, t.host, t.port).Ok?
    ensures var t := Parse(lib, text).value;
            var printed := Format(lib, t.query, t.host, t.port).value;
            Parse(lib, printed) == Ok(t)
  {
    hide Parse, Format, Strip, Lower;
    var t := Parse(lib, text).value;
    ParsedPlain(lib, text);
    RoundTrip(lib, t.query, t.host, t.port);
  }

  // ---- When a parsed target can be formatted -----------------------------------------------------

  /** Facts of the library's tests: lowering and stripping a literal with a colon and no zone id leaves a
      literal, and the normalization test judges an authority by its characters outside ASCII. */
  ghost predicate ByCharacter(lib: Library) {
    && (forall x :: lib.literal(x) && !Has(x, '%') && Has(Strip(Lower(x)), ':') ==> lib.literal(Strip(Lower(x))))
    && (forall a, b :: lib.netloc(a) && MadeOf(b, a) ==> lib.netloc(b))
  }

  /** Name characters, each in ASCII or taken from a. */
  predicate MadeOf(b: string, a: string) {
    forall i :: 0 <= i < |b| ==> NameChar(b[i]) && (b[i] as int < 128 || b[i] in a)
  }

  predicate Numeric(x: string) { x != "" && forall i :: 0 <= i < |x| ==> x[i] == ':' || IsDigit(x[i]) }

  /** The facts can be met: literals of digits and colons, and authorities in ASCII. */
  lemma NumericLibrary()
    ensures var lib := Library(x => Numeric(x), x => forall i :: 0 <= i < |x| ==> x[i] as int < 128);
            LiteralsPlain(lib) && ByCharacter(lib)
  {
    forall x | Numeric(x) ensures Strip(Lower(x)) == x {
      assert Lower(x) == x;
      StripSpec(x);
    }
  }

  lemma BeforeLacks(s: string, c: char)
    ensures !Has(Before(s, c), c)
  {
  }

  lemma LowerHas(s: string, c: char)
    requires !Has(s, c) && !('a' <= c <= 'z')
    ensures !Has(Lower(s), c)
  {
    forall i | 0 <= i < |s| ensures Lower(s)[i] != c {
      assert s[i] != c;
    }
  }

  /** An authority without credentials has brackets only behind its last '@'. */
  lemma BracketsInInfo(netloc: string, c: char)
    requires !HasCredentials(netloc) && (c == '[' || c == ']') && !Has(netloc[LastAt(netloc) + 1..], c)
    ensures !Has(netloc, c)
  {
    hide HasCredentials, LastAt, Has;
    var user, info := netloc[..LastAt(netloc) + 1], netloc[LastAt(netloc) + 1..];
    UserPart(netloc);
    UserLacks(user, c);
    LackConcat(user, info, c);
    assert user + info == netloc;
  }

  lemma UserLacks(user: string, c: char)
    requires (user == "" || user == "@" || user == ":@") && (c == '[' || c == ']')
    ensures !Has(user, c)
  {
  }

  lemma UserPart(netloc: string)
    requires !HasCredentials(netloc)
    ensures var user := netloc[..LastAt(netloc) + 1]; user == "" || user == "@" || user == ":@"
  {
    var k := LastAt(netloc);
    if k > 0 {
      assert netloc[..k + 1] == netloc[..k] + [netloc[k]];
    } else if k == 0 {
      assert netloc[..1] == [netloc[0]];
    }
  }

  /** A host text holds no closing bracket, and one with a colon is a literal. */
  lemma HostTextOf(lib: Library, netloc: string)
    requires BracketsOk(lib, netloc) && !HasCredentials(netloc)
    ensures var host := HostInfo(netloc).0; !Has(host, ']') && (Has(host, ':') ==> lib.literal(host))
  {
    hide Before, After, HasCredentials, LastAt, Has, Find;
    var info := netloc[LastAt(netloc) + 1..];
    if Has(info, '[') {
      InfoHas(netloc, '[');
      BeforeLacks(After(info, '['), ']');
    } else {
      BracketsInInfo(netloc, '[');
      if Has(info, ']') {
        InfoHas(netloc, ']');
      }
      BeforeHasNo(info, ':', ']');
      BeforeLacks(info, ':');
    }
  }

  lemma HostTextChars(netloc: string)
    ensures forall c :: c in HostInfo(netloc).0 ==> c in netloc
  {
  }

  /** The host that was read, in terms of the host text. */
  lemma ReadHost(lib: Library, netloc: string)
    requires ParseAuthority(lib, netloc).Ok? && !Has(ParseAuthority(lib, netloc).value.0, '%')
    ensures lib.netloc(netloc) && BracketsOk(lib, netloc) && !HasCredentials(netloc)
    ensures !Has(HostInfo(netloc).0, '%')
    ensures ParseAuthority(lib, netloc).value.0 == Strip(Lower(HostInfo(netloc).0))
  {
    hide BracketsOk, HostInfo, HostName, HasCredentials, Strip, Lower, IsSpace, ValidName, PortNumber;
    var host := HostInfo(netloc).0;
    AuthorityParts(lib, netloc);
    if Has(host, '%') {
      var k := Find(host, Is('%'));
      PercentInName(host, k);
      StripKeepsPercent(HostName(host), k);
    }
    NoZone(host);
  }

  lemma PercentInName(host: string, k: nat)
    requires k == Find(host, Is('%')) && Has(host, '%')
    ensures k < |HostName(host)| && HostName(host)[k] == '%'
  {
  }

  /** What a parsed host is made of: no closing bracket; a literal if it has a colon; characters of the
      authority it came from, or ASCII. */
  lemma ReadHostParts(lib: Library, netloc: string)
    requires ByCharacter(lib) && ParseAuthority(lib, netloc).Ok? && !Has(ParseAuthority(lib, netloc).value.0, '%')
    ensures var h := ParseAuthority(lib, netloc).value.0;
            && lib.netloc(netloc) && !Has(h, ']') && (Has(h, ':') ==> lib.literal(h))
            && forall i :: 0 <= i < |h| ==> h[i] as int < 128 || h[i] in netloc
  {
    hide ParseAuthority, BracketsOk, HostInfo, HasCredentials, Strip, NameChar;
    ReadHost(lib, netloc);
    HostTextOf(lib, netloc);
    HostTextChars(netloc);
    var host := HostInfo(netloc).0;
    LowerHas(host, ']');
    StripHas(Lower(host), ']');
    if !Has(host, ':') {
      LowerHas(host, ':');
      StripHas(Lower(host), ':');
    }
    var d := StripPlace(Lower(host));
    forall i | 0 <= i < |Strip(Lower(host))|
      ensures Strip(Lower(host))[i] as int < 128 || Strip(Lower(host))[i] in netloc
    {
      assert host[d + i] in host;
    }
  }

  /** The printed authority of a host with those parts is read back. */
  lemma PrintedIsRead(lib: Library, source: string, h: string, port: int)
    requires ByCharacter(lib) && lib.netloc(source) && forall i :: 0 <= i < |h| ==> h[i] as int < 128 || h[i] in source
    requires ValidName(h) && h[0] != '[' && Lower(h) == h && !Has(h, '%') && 1 <= port <= 65535
    requires !Has(h, ']') && (Has(h, ':') ==> lib.literal(h)) && (Has(h, ':') || !Has(h, '['))
    ensures ParseAuthority(lib, HostText(h) + PortText(port)) == Ok((h, port))
  {
    hide BracketsOk, HostInfo, PortNumber, IsSpace, TrimDots, PortText, Delimiter, After, Before, NameChar, ValidName,
         HasCredentials, LastAt, Lower, Strip;
    var s := PortText(port);
    var netloc := HostText(h) + s;
    PrintedNetloc(lib, source, h, port);
    NameHasNoAt(h);
    PortTextChars(port);
    PortSuffix(port);
    PortReadBack(port);
    NameChars(h);
    NoZone(h);
    ValidIsTrimmed(h);
    LackConcat(h, s, '@');
    if Has(h, ':') {
      BracketedAuthority(h, s);
      BracketTail(lib, h, s);
    } else {
      NoAt(netloc);
      LackConcat(h, s, '[');
      LackConcat(h, s, ']');
      NoBrackets(lib, netloc);
      BareInfo(lib, h, s);
    }
  }

  lemma NoBrackets(lib: Library, netloc: string)
    requires !Has(netloc, '[') && !Has(netloc, ']')
    ensures BracketsOk(lib, netloc)
  {
  }

  lemma PrintedNetloc(lib: Library, source: string, h: string, port: int)
    requires ByCharacter(lib) && lib.netloc(source) && forall i :: 0 <= i < |h| ==> h[i] as int < 128 || h[i] in source
    requires ValidName(h) && 1 <= port <= 65535
    ensures lib.netloc(HostText(h) + PortText(port))
  {
    hide NameChar, ValidName, PortText;
    AuthorityChars(h, port);
    PortSuffix(port);
    var t, s := HostText(h), PortText(port);
    var b := t + s;
    forall i | 0 <= i < |b| ensures NameChar(b[i]) && (b[i] as int < 128 || b[i] in source) {
      if i >= |t| {
        assert b[i] == s[i - |t|];
      } else if t != h && 1 <= i <= |h| {
        assert b[i] == h[i - 1];
      }
    }
  }

  /** A host with an opening bracket and no colon prints an authority with unbalanced brackets. */
  lemma UnbalancedIsRefused(lib: Library, h: string, port: int)
    requires Has(h, '[') && !Has(h, ':') && !Has(h, ']') && 1 <= port <= 65535
    ensures ParseAuthority(lib, HostText(h) + PortText(port)).Raised?
  {
    hide PortText;
    PortTextChars(port);
    var s := PortText(port);
    LackConcat(h, s, ']');
    var i :| 0 <= i < |h| && h[i] == '[';
    assert (h + s)[i] == '[';
  }

  /** What Parse reads names its authority. */
  lemma AuthorityOf(lib: Library, text: string) returns (netloc: string)
    requires Parse(lib, text).Ok? && Parse(lib, text).value.Explicit?
    ensures var t := Parse(lib, text).value;
            ParseAuthority(lib, netloc) == Ok((t.host, t.port)) && ValidName(t.query) && Strip(t.query) == t.query
  {
    hide ParseAuthority, ValidName, Strip, Lower, DropTabs, Find, Before, After, SkipSlashes, Has;
    var rest := DropTabs(Strip(text)[6..]);
    netloc := rest[..Find(rest, Delimiter)];
    ValidIsTrimmed(Parse(lib, text).value.query);
  }

  /** Formatting a parsed explicit target without a zone id succeeds unless the host has an opening bracket
      and no colon (an IPvFuture literal such as "v1.[x"), and then gives a text that parses to the same
      target. */
  lemma FormattingParsedSucceedsIff(lib: Library, text: string)
    requires LiteralsPlain(lib) && ByCharacter(lib)
    requires Parse(lib, text).Ok? && Parse(lib, text).value.Explicit? && !Has(Parse(lib, text).value.host, '%')
    ensures var t := Parse(lib, text).value;
            && (Format(lib, t.query, t.host, t.port).Ok? <==> Has(t.host, ':') || !Has(t.host, '['))
            && (Format(lib, t.query, t.host, t.port).Ok? ==>
                  Parse(lib, Format(lib, t.query, t.host, t.port).value) == Ok(t))
  {
    hide Parse, ParseAuthority, Strip, Lower, HostText, PortText, NameChar, ValidName;
    var t := Parse(lib, text).value;
    var netloc := AuthorityOf(lib, text);
    ParsedHostPlain(lib, netloc);
    ReadHostParts(lib, netloc);
    ValidIsTrimmed(t.query);
    ValidIsTrimmed(t.host);
    var authority := HostText(t.host) + PortText(t.port);
    AuthorityChars(t.host, t.port);
    assert SCHEME + HostText(t.host) + PortText(t.port) + "/" + t.query == SCHEME + authority + "/" + t.query;
    ParsePrintedTarget(lib, authority, t.query);
    if Has(t.host, ':') || !Has(t.host, '[') {
      PrintedIsRead(lib, netloc, t.host, t.port);
    } else {
      UnbalancedIsRefused(lib, t.host, t.port);
    }
  }

  /** The IPvFuture literal "v1.[x": it is read from between brackets, but has no colon, so that the printer
      leaves the brackets out and the printed text is refused. */
  const FUTURE := "v1.[x"

  lemma FutureName()
    ensures ValidName(FUTURE) && Lower(FUTURE) == FUTURE && Has(FUTURE, '[')
    ensures !Has(FUTURE, ':') && !Has(FUTURE, ']') && !Has(FUTURE, '%') && !Has(FUTURE, '@')
  {
    hide TrimDots;
    TrimDotsShorter(FUTURE);
    assert FUTURE[3] == '[';
  }

  lemma FutureIsRead(lib: Library)
    requires lib.literal(FUTURE) && lib.netloc("[" + FUTURE + "]" + "")
    ensures ParseAuthority(lib, "[" + FUTURE + "]" + "") == Ok((FUTURE, 53))
  {
    hide BracketsOk, HostInfo, Before, ValidName, HasCredentials, LastAt, Lower, Strip;
    FutureName();
    LackConcat(FUTURE, "", '@');
    BracketedAuthority(FUTURE, "");
    BracketTail(lib, FUTURE, "");
    AfterNothing();
    NoZone(FUTURE);
    ValidIsTrimmed(FUTURE);
  }

  /** The target "dns://[v1.[x]/example" is parsed, and what was parsed cannot be formatted. */
  lemma ParsedButUnprintable(lib: Library)
    requires lib.literal(FUTURE) && lib.netloc("[" + FUTURE + "]" + "")
    ensures Parse(lib, SCHEME + ("[" + FUTURE + "]" + "") + "/" + "example") == Ok(Explicit("example", FUTURE, 53))
    ensures Format(lib, "example", FUTURE, 53) == Raised
  {
    hide Parse, ParseAuthority, Strip, Lower, NameChar, ValidName, PortText, Has;
    var netloc := "[" + FUTURE + "]" + "";
    FutureName();
    ExampleNames();
    FutureIsRead(lib);
    FutureChars();
    ParsePrintedTarget(lib, netloc, "example");
    ValidIsTrimmed("example");
    ValidIsTrimmed(FUTURE);
    AuthorityChars(FUTURE, 53);
    var authority := HostText(FUTURE) + PortText(53);
    assert SCHEME + HostText(FUTURE) + PortText(53) + "/" + "example" == SCHEME + authority + "/" + "example";
    ParsePrintedTarget(lib, authority, "example");
    UnbalancedIsRefused(lib, FUTURE, 53);
  }

  lemma FutureChars()
    ensures forall i :: 0 <= i < |"[" + FUTURE + "]" + ""| ==> NameChar(("[" + FUTURE + "]" + "")[i])
  {
  }
}
