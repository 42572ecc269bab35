/** `openagent://` references: printing, parsing, and which object ids survive the round trip. */
module DetailRefs {
  import opened Basics
  import opened Text
  import opened Envelopes

  type Bytes = seq<byte>

  const SLASH: byte := 47
  const PERCENT: byte := 37
  const DOT: byte := 46
  const HASH: byte := 35
  const QUESTION: byte := 63
  const AT: byte := 64

  // ---------------------------------------------------------------- UTF-8

  /** The UTF-8 bytes of one code point. */
  function Utf8(c: char): (bs: Bytes)
    ensures bs != [] && (bs[0] < 128 ==> |bs| == 1 && bs[0] == c as int)
    ensures |bs| > 1 ==> forall i :: 0 <= i < |bs| ==> bs[i] >= 128
  {
    var n := c as int;
    if n < 0x80 then [n]
    else if n < 0x800 then [0xC0 + n / 64, 0x80 + n % 64]
    else if n < 0x10000 then [0xE0 + n / 4096, 0x80 + n / 64 % 64, 0x80 + n % 64]
    else [0xF0 + n / 262144, 0x80 + n / 4096 % 64, 0x80 + n / 64 % 64, 0x80 + n % 64]
  }

  function Encode(s: string): (bs: Bytes)
    ensures s != "" <==> bs != []
  {
    if s == "" then [] else Utf8(s[0]) + Encode(s[1..])
  }

  lemma Utf8PrefixFree(c: char, d: char, x: Bytes, y: Bytes)
    requires Utf8(c) + x == Utf8(d) + y
    ensures c == d && x == y
  {
    var u, v := Utf8(c) + x, Utf8(d) + y;
    assert u[0] == Utf8(c)[0] && v[0] == Utf8(d)[0];
    assert |Utf8(c)| == |Utf8(d)|;
    assert Utf8(c) == u[..|Utf8(c)|] == v[..|Utf8(d)|] == Utf8(d);
    assert x == u[|Utf8(c)|..] && y == v[|Utf8(d)|..];
    Utf8Injective(c, d);
  }

  lemma TwoDigits(m: nat, n: nat)
    requires m / 64 == n / 64 && m % 64 == n % 64
    ensures m == n
  {}

  lemma ThreeDigits(m: nat, n: nat)
    requires m / 4096 == n / 4096 && m / 64 % 64 == n / 64 % 64 && m % 64 == n % 64
    ensures m == n
  {
    TwoDigits(m / 64, n / 64);
  }

  lemma FourDigits(m: nat, n: nat)
    requires m / 262144 == n / 262144 && m / 4096 % 64 == n / 4096 % 64
    requires m / 64 % 64 == n / 64 % 64 && m % 64 == n % 64
    ensures m == n
  {
    TwoDigits(m / 4096, n / 4096);
    ThreeDigits(m, n);
  }

  lemma Utf8Injective(c: char, d: char)
    requires Utf8(c) == Utf8(d)
    ensures c == d
  {
    var m, n := c as int, d as int;
    var bs := Utf8(c);
    assert bs == Utf8(d);
    if m < 0x80 {
      assert m == bs[0] == n;
    } else if m < 0x800 {
      assert bs[0] == 0xC0 + m / 64 == 0xC0 + n / 64 && bs[1] == 0x80 + m % 64 == 0x80 + n % 64;
      TwoDigits(m, n);
    } else if m < 0x10000 {
      assert bs[0] == 0xE0 + m / 4096 == 0xE0 + n / 4096 && bs[1] == 0x80 + m / 64 % 64 == 0x80 + n / 64 % 64;
      assert bs[2] == 0x80 + m % 64 == 0x80 + n % 64;
      ThreeDigits(m, n);
    } else {
      assert bs[0] == 0xF0 + m / 262144 == 0xF0 + n / 262144 && bs[1] == 0x80 + m / 4096 % 64 == 0x80 + n / 4096 % 64;
      assert bs[2] == 0x80 + m / 64 % 64 == 0x80 + n / 64 % 64 && bs[3] == 0x80 + m % 64 == 0x80 + n % 64;
      FourDigits(m, n);
    }
  }

  lemma {:induction false} EncodeInjective(s: string, t: string)
    requires Encode(s) == Encode(t)
    ensures s == t
  {
    if s != "" {
      Utf8PrefixFree(s[0], t[0], Encode(s[1..]), Encode(t[1..]));
      EncodeInjective(s[1..], t[1..]);
      assert s == [s[0]] + s[1..] && t == [t[0]] + t[1..];
    }
  }

  /** An ASCII byte occurs exactly where its character does. */
  lemma {:induction false} EncodeAscii(s: string, b: byte)
    requires b < 128
    ensures b in Encode(s) <==> (b as char) in s
  {
    if s != "" {
      EncodeAscii(s[1..], b);
      assert s == [s[0]] + s[1..];
      assert b in Encode(s) <==> b in Utf8(s[0]) || b in Encode(s[1..]);
    }
  }

  // ---------------------------------------------------------------- percent encoding

  /** Bytes that `url.PathEscape` leaves alone: RFC 3986's unreserved set and $ & + : = @. */
  predicate Plain(b: byte) {
    || 'A' as int <= b <= 'Z' as int || 'a' as int <= b <= 'z' as int || '0' as int <= b <= '9' as int
    || (b < 128 && b as char in {'-', '_', '.', '~', '$', '&', '+', ':', '=', '@'})
  }

  function HexByte(d: nat): (b: byte)
    requires d < 16
    ensures HexValue(b) == Some(d) && b != SLASH && b != PERCENT
  {
    if d < 10 then '0' as int + d else 'A' as int + d - 10
  }

  function HexValue(b: byte): Option<nat> {
    if '0' as int <= b <= '9' as int then Some(b - '0' as int)
    else if 'a' as int <= b <= 'f' as int then Some(b - 'a' as int + 10)
    else if 'A' as int <= b <= 'F' as int then Some(b - 'A' as int + 10)
    else None
  }

  function PathEscape(bs: Bytes): (r: Bytes)
    ensures forall i :: 0 <= i < |r| ==> Plain(r[i]) || r[i] == PERCENT
    ensures bs != [] <==> r != []
  {
    if bs == [] then []
    else
      (if Plain(bs[0]) then [bs[0]] else [PERCENT, HexByte(bs[0] / 16), HexByte(bs[0] % 16)]) + PathEscape(bs[1..])
  }

  /** `url.PathUnescape`, which is also what `url.Parse` does to a path. */
  function PathUnescape(bs: Bytes): Option<Bytes> {
    if bs == [] then Some([])
    else if bs[0] != PERCENT then
      match PathUnescape(bs[1..]) case None => None case Some(r) => Some([bs[0]] + r)
    else if |bs| < 3 || HexValue(bs[1]).None? || HexValue(bs[2]).None? then None
    else
      match PathUnescape(bs[3..])
      case None => None
      case Some(r) => Some([HexValue(bs[1]).value * 16 + HexValue(bs[2]).value] + r)
  }

  lemma {:induction false} UnescapeEscape(bs: Bytes)
    ensures PathUnescape(PathEscape(bs)) == Some(bs)
  {
    if bs != [] {
      UnescapeEscape(bs[1..]);
      var r := PathEscape(bs);
      assert bs == [bs[0]] + bs[1..];
      if Plain(bs[0]) {
        assert r[1..] == PathEscape(bs[1..]) && r[0] != PERCENT;
      } else {
        assert r[3..] == PathEscape(bs[1..]);
      }
    }
  }

  /** Unescaping never lengthens, and changes a text exactly when it holds a percent sign. */
  lemma {:induction false} UnescapeShortens(bs: Bytes)
    ensures PathUnescape(bs).Some? ==> |PathUnescape(bs).value| <= |bs|
    ensures PathUnescape(bs).Some? && PERCENT in bs ==> |PathUnescape(bs).value| < |bs|
    ensures PERCENT !in bs ==> PathUnescape(bs) == Some(bs)
  {
    if bs != [] {
      assert bs == [bs[0]] + bs[1..];
      if bs[0] != PERCENT {
        UnescapeShortens(bs[1..]);
      } else if |bs| >= 3 {
        UnescapeShortens(bs[3..]);
      }
    }
  }

  lemma Prepend(x: byte, a: Bytes, b: Bytes)
    ensures [x] + (a + b) == ([x] + a) + b
  {}

  lemma {:induction false} UnescapeConcat(a: Bytes, b: Bytes)
    requires PathUnescape(a).Some? && PathUnescape(b).Some?
    ensures PathUnescape(a + b) == Some(PathUnescape(a).value + PathUnescape(b).value)
    decreases |a|
  {
    var r := PathUnescape(b).value;
    if a == [] {
      assert a + b == b && [] + r == r;
    } else if a[0] != PERCENT {
      assert (a + b)[1..] == a[1..] + b && (a + b)[0] == a[0];
      UnescapeConcat(a[1..], b);
      Prepend(a[0], PathUnescape(a[1..]).value, r);
    } else {
      assert (a + b)[3..] == a[3..] + b && (a + b)[0] == a[0] && (a + b)[1] == a[1] && (a + b)[2] == a[2];
      UnescapeConcat(a[3..], b);
      Prepend(HexValue(a[1]).value * 16 + HexValue(a[2]).value, PathUnescape(a[3..]).value, r);
    }
  }

  // ---------------------------------------------------------------- decimal numbers

  /** The digits of `n` in base ten, as `%d` prints them. */
  function Decimal(n: nat): (r: Bytes)
    ensures r != [] && forall i :: 0 <= i < |r| ==> '0' as int <= r[i] <= '9' as int
    decreases n
  {
    if n < 10 then ['0' as int + n] else Decimal(n / 10) + ['0' as int + n % 10]
  }

  lemma {:induction false} DecimalInjective(m: nat, n: nat)
    requires Decimal(m) == Decimal(n)
    ensures m == n
    decreases m
  {
    var r := Decimal(m);
    if m >= 10 && n >= 10 {
      assert Decimal(m / 10) == r[..|r| - 1] == Decimal(n / 10);
      DecimalInjective(m / 10, n / 10);
      assert r[|r| - 1] == '0' as int + m % 10 == '0' as int + n % 10;
    }
  }

  /** The number that the digits stand for, read from the left. */
  function ValueOf(digits: Bytes): int {
    if digits == [] then 0 else ValueOf(digits[..|digits| - 1]) * 10 + (digits[|digits| - 1] as int - '0' as int)
  }

  /** What is printed stands for the number, without leading zeros. */
  lemma {:induction false} DecimalValue(n: nat)
    ensures ValueOf(Decimal(n)) == n
    ensures n > 0 ==> Decimal(n)[0] != '0' as int
    decreases n
  {
    var r := Decimal(n);
    if n < 10 {
      assert r[..0] == [];
    } else {
      DecimalValue(n / 10);
      assert r[..|r| - 1] == Decimal(n / 10);
    }
  }

  /** Letters, digits and the four marks of section 2.3 of RFC 3986. */
  predicate Unreserved(s: string) {
    forall i :: 0 <= i < |s| ==>
      'A' <= s[i] <= 'Z' || 'a' <= s[i] <= 'z' || '0' <= s[i] <= '9' || s[i] in {'-', '.', '_', '~'}
  }

  /** Text of unreserved characters is left alone. */
  lemma {:induction false} UnreservedKept(s: string)
    requires Unreserved(s)
    ensures PathEscape(Encode(s)) == Encode(s) && |Encode(s)| == |s|
    ensures forall i :: 0 <= i < |s| ==> Encode(s)[i] == s[i] as int
  {
    if s != "" {
      UnreservedKept(s[1..]);
      assert Utf8(s[0]) == [s[0] as int];
    }
  }

  /** Escaping goes byte by byte; a byte that would end the element or start an escape becomes '%' and its two
      capital hexadecimal digits. */
  lemma EscapeByByte(b: byte, rest: Bytes)
    ensures PathEscape([b] + rest) == PathEscape([b]) + PathEscape(rest)
    ensures b in {PERCENT, SLASH, QUESTION, HASH} || b >= 128 || b <= 32 ==>
              PathEscape([b]) == [37, HexDigitByte(b / 16), HexDigitByte(b % 16)]
  {
    assert ([b] + rest)[1..] == rest && [b][1..] == [] && PathEscape([]) == [];
    HexDigits(b / 16);
    HexDigits(b % 16);
  }

  lemma HexDigits(d: nat)
    requires d < 16
    ensures HexByte(d) == HexDigitByte(d)
  {}

  function HexDigitByte(d: nat): byte
    requires d < 16
  {
    "0123456789ABCDEF"[d] as int
  }

  // ---------------------------------------------------------------- printing

  const SCHEME := "openagent"

  function IDTail(id: string, version: nat): Bytes {
    PathEscape(Encode(id)) + [SLASH] + Decimal(version)
  }

  function KindTail(kind: string, id: string, version: nat): Bytes {
    Encode(kind) + [SLASH] + IDTail(id, version)
  }

  function RefTail(peer: string, kind: string, id: string, version: nat): Bytes {
    Encode(peer) + [SLASH] + KindTail(kind, id, version)
  }

  function BuildDetailRef(peer: string, kind: string, id: string, version: nat): Bytes {
    Encode(SCHEME + ":") + ([SLASH, SLASH] + RefTail(peer, kind, id, version))
  }

  lemma EncodeConcat(s: string, t: string)
    ensures Encode(s + t) == Encode(s) + Encode(t)
  {
    if s == "" {
      assert s + t == t;
    } else {
      EncodeConcat(s[1..], t);
      assert (s + t)[1..] == s[1..] + t && (s + t)[0] == s[0];
    }
  }

  lemma EncodeSlash(s: string)
    ensures Encode(s + "/") == Encode(s) + [SLASH]
  {
    var slash := "/";
    assert slash[1..] == "" && Encode("") == [];
    assert Encode(slash) == [SLASH];
    EncodeConcat(s, slash);
  }

  lemma PathText(peer: string, kind: string, id: string)
    ensures Encode(peer + "/" + kind + "/" + id + "/")
            == Encode(peer) + [SLASH] + Encode(kind) + [SLASH] + Encode(id) + [SLASH]
  {
    EncodeSlash(peer);
    EncodeConcat(peer + "/", kind);
    EncodeSlash(peer + "/" + kind);
    EncodeConcat(peer + "/" + kind + "/", id);
    EncodeSlash(peer + "/" + kind + "/" + id);
  }

  lemma TwoSlashes(head: string, rest: string)
    ensures Encode(head + "/" + "/" + rest) == Encode(head) + ([SLASH, SLASH] + Encode(rest))
  {
    EncodeSlash(head);
    EncodeSlash(head + "/");
    EncodeConcat(head + "/" + "/", rest);
    assert Encode(head) + [SLASH] + [SLASH] + Encode(rest) == Encode(head) + ([SLASH, SLASH] + Encode(rest));
  }

  lemma SchemeLiteral()
    ensures SCHEME + ":" == "openagent:" && SCHEME + ":" + "/" + "/" == "openagent://"
  {}

  lemma SchemeText(rest: string)
    ensures Encode("openagent://" + rest) == Encode(SCHEME + ":") + ([SLASH, SLASH] + Encode(rest))
  {
    SchemeLiteral();
    TwoSlashes(SCHEME + ":", rest);
  }

  lemma RefShape(peer: Bytes, kind: Bytes, id: Bytes, version: Bytes)
    ensures peer + [SLASH] + (kind + [SLASH] + (id + [SLASH] + version))
            == (peer + [SLASH] + kind + [SLASH] + id + [SLASH]) + version
  {}

  /** References to objects with ids of unreserved characters, spelled out. */
  lemma PlainRefText(peer: string, kind: string, id: string, version: nat)
    requires Unreserved(id)
    ensures BuildDetailRef(peer, kind, id, version)
            == Encode("openagent://" + (peer + "/" + kind + "/" + id + "/")) + Decimal(version)
  {
    UnreservedKept(id);
    PathText(peer, kind, id);
    SchemeText(peer + "/" + kind + "/" + id + "/");
    RefShape(Encode(peer), Encode(kind), Encode(id), Decimal(version));
    Regroup(Encode(SCHEME + ":"), [SLASH, SLASH], Encode(peer + "/" + kind + "/" + id + "/"), Decimal(version));
  }

  lemma Regroup(a: Bytes, b: Bytes, c: Bytes, d: Bytes)
    ensures a + (b + (c + d)) == (a + (b + c)) + d
  {}

  lemma SameAfter(head: Bytes, a: Bytes, b: Bytes)
    requires head + a == head + b
    ensures a == b
  {
    assert a == (head + a)[|head|..] && b == (head + b)[|head|..];
  }

  lemma EncodeNoSlash(s: string)
    requires '/' !in s
    ensures SLASH !in Encode(s)
  {}

  /** Equal references name the same peer, kind, object and version, whatever the object id. */
  lemma BuildInjective(p1: string, k1: string, id1: string, v1: nat, p2: string, k2: string, id2: string, v2: nat)
    requires '/' !in p1 && '/' !in p2 && '/' !in k1 && '/' !in k2
    requires BuildDetailRef(p1, k1, id1, v1) == BuildDetailRef(p2, k2, id2, v2)
    ensures p1 == p2 && k1 == k2 && id1 == id2 && v1 == v2
  {
    SameAfter(Encode(SCHEME + ":"), [SLASH, SLASH] + RefTail(p1, k1, id1, v1),
              [SLASH, SLASH] + RefTail(p2, k2, id2, v2));
    SameAfter([SLASH, SLASH], RefTail(p1, k1, id1, v1), RefTail(p2, k2, id2, v2));
    EncodeNoSlash(p1);
    EncodeNoSlash(p2);
    FirstSeparatorUnique(Encode(p1), KindTail(k1, id1, v1), Encode(p2), KindTail(k2, id2, v2), SLASH);
    EncodeNoSlash(k1);
    EncodeNoSlash(k2);
    FirstSeparatorUnique(Encode(k1), IDTail(id1, v1), Encode(k2), IDTail(id2, v2), SLASH);
    EncodeInjective(p1, p2);
    EncodeInjective(k1, k2);
    IDTailInjective(id1, v1, id2, v2);
  }

  lemma IDTailInjective(id1: string, v1: nat, id2: string, v2: nat)
    requires IDTail(id1, v1) == IDTail(id2, v2)
    ensures id1 == id2 && v1 == v2
  {
    var e1, e2 := PathEscape(Encode(id1)), PathEscape(Encode(id2));
    assert !Plain(SLASH);
    FirstSeparatorUnique(e1, Decimal(v1), e2, Decimal(v2), SLASH);
    UnescapeEscape(Encode(id1));
    UnescapeEscape(Encode(id2));
    EncodeInjective(id1, id2);
    DecimalInjective(v1, v2);
  }

  // ---------------------------------------------------------------- parsing

  datatype DetailRef = DetailRef(peer: Bytes, kind: Bytes, id: Bytes, version: Bytes)

  datatype ParseError = BadURL | BadScheme | BadPeer | TooShort | BadID

  /** `path.Clean` on the elements of a rooted path: empty and "." elements go, ".." takes the
      element before it along. */
  function Clean(elems: seq<Bytes>): (r: seq<Bytes>)
  {
    if elems == [] then []
    else
      var before, e := Clean(elems[..|elems| - 1]), elems[|elems| - 1];
      if e == [] || e == [DOT] then before
      else if e == [DOT, DOT] then (if before == [] then [] else before[..|before| - 1])
      else before + [e]
  }

  /** `strings.Cut`: the text before the first separator, and the text after it. */
  function Cut(bs: Bytes, sep: byte): (r: (Bytes, Bytes))
    ensures |r.0| <= |bs|
  {
    SplitPieces(bs, sep);
    var parts := Split(bs, sep);
    (parts[0], if |parts[0]| < |bs| then bs[|parts[0]| + 1..] else [])
  }

  predicate ControlByte(b: byte) {
    b < 0x20 || b == 0x7F
  }

  function LowerByte(b: byte): byte {
    if 'A' as int <= b <= 'Z' as int then b + 32 else b
  }

  function Lower(bs: Bytes): Bytes {
    seq(|bs|, i requires 0 <= i < |bs| => LowerByte(bs[i]))
  }

  /** The middle of the parser, on the decoded path. */
  function FromPath(host: Bytes, path: Bytes): Result<DetailRef, ParseError> {
    var parts := Clean(Split(path, SLASH));
    if |parts| < 3 then Err(TooShort)
    else match PathUnescape(parts[1])
      case None => Err(BadID)
      case Some(id) => Ok(DetailRef(host, parts[0], id, parts[2]))
  }

  /** What follows the scheme: an authority and a path. */
  function FromAuthority(url: Bytes, decodes: Bytes -> bool): Result<DetailRef, ParseError> {
    var (rest, _) := Cut(url, QUESTION);
    if |rest| < 2 || rest[0] != SLASH || rest[1] != SLASH then Err(BadPeer)
    else
      var (host, _) := Cut(rest[2..], SLASH);
      var path := PathUnescape(rest[2..][|host|..]);
      if path.None? then Err(BadURL)
      else if AT in host || !decodes(host) then Err(BadPeer)
      else FromPath(host, path.value)
  }

  /** `ParseDetailRef`; `decodes` tells which texts `peer.Decode` accepts. */
  function ParseDetailRef(raw: Bytes, decodes: Bytes -> bool): Result<DetailRef, ParseError> {
    var (url, fragment) := Cut(raw, HASH);
    var scheme := Encode(SCHEME + ":");
    if (exists i :: 0 <= i < |url| && ControlByte(url[i])) || PathUnescape(fragment).None? then Err(BadURL)
    else if |url| < |scheme| || Lower(url[..|scheme|]) != scheme then Err(BadScheme)
    else FromAuthority(url[|scheme|..], decodes)
  }

  /** What parses is one of the node's references: its scheme, whatever its case, and an accepted peer. */
  lemma ParsedIsOurs(raw: Bytes, decodes: Bytes -> bool)
    requires ParseDetailRef(raw, decodes).Ok?
    ensures |raw| >= 12 && Lower(raw[..10]) == Encode("openagent:") && raw[10] == SLASH && raw[11] == SLASH
    ensures var peer := ParseDetailRef(raw, decodes).value.peer;
            decodes(peer) && SLASH !in peer && peer <= raw[12..]
  {
    SchemeLiteral();
    SchemeLength();
    var scheme := Encode(SCHEME + ":");
    ParsedAfter(raw, decodes, scheme);
    assert raw[10..][0] == raw[10] && raw[10..][1] == raw[11] && raw[10..][2..] == raw[12..];
  }

  lemma ParsedAfter(raw: Bytes, decodes: Bytes -> bool, scheme: Bytes)
    requires scheme == Encode(SCHEME + ":") && ParseDetailRef(raw, decodes).Ok?
    ensures |raw| >= |scheme| + 2 && Lower(raw[..|scheme|]) == scheme
    ensures var rest, peer := raw[|scheme|..], ParseDetailRef(raw, decodes).value.peer;
            rest[0] == SLASH && rest[1] == SLASH && decodes(peer) && SLASH !in peer && peer <= rest[2..]
  {
    var url := Cut(raw, HASH).0;
    CutIsPrefix(raw, HASH);
    var n := |scheme|;
    AuthorityIsOurs(url[n..], decodes);
    PrefixParts(url, raw, n);
  }

  lemma PrefixParts(a: Bytes, b: Bytes, n: nat)
    requires a <= b && |a| >= n + 2
    ensures a[..n] == b[..n] && a[n..][0] == b[n..][0] && a[n..][1] == b[n..][1] && a[n..][2..] <= b[n..][2..]
  {}

  lemma AuthorityIsOurs(url: Bytes, decodes: Bytes -> bool)
    requires FromAuthority(url, decodes).Ok?
    ensures |url| >= 2 && url[0] == SLASH && url[1] == SLASH
    ensures var peer := FromAuthority(url, decodes).value.peer; decodes(peer) && SLASH !in peer && peer <= url[2..]
  {
    var rest := Cut(url, QUESTION).0;
    CutIsPrefix(url, QUESTION);
    var host := Cut(rest[2..], SLASH).0;
    CutIsPrefix(rest[2..], SLASH);
    assert rest[2..] <= url[2..];
  }

  lemma SchemeLength()
    ensures |Encode("openagent:")| == 10
  {
    LowercaseAscii("openagent:");
  }

  lemma CutIsPrefix(bs: Bytes, sep: byte)
    ensures Cut(bs, sep).0 <= bs && sep !in Cut(bs, sep).0
  {
    SplitPieces(bs, sep);
    FirstPiece(bs, sep);
  }

  lemma {:induction false} FirstPiece(bs: Bytes, sep: byte)
    ensures Split(bs, sep)[0] <= bs
  {
    if bs != [] && bs[0] != sep {
      FirstPiece(bs[1..], sep);
      assert bs == [bs[0]] + bs[1..];
    }
  }

  // ---------------------------------------------------------------- round trip

  /** Object ids that come back unchanged. */
  predicate Survives(id: string) {
    id != "" && '/' !in id && '%' !in id && id != "." && id != ".."
  }

  predicate Vanishes(e: Bytes) {
    e == [] || e == [DOT] || e == [DOT, DOT]
  }

  /** Cleaning keeps some of the elements, in order. */
  lemma {:induction false} CleanKeepsOrder(elems: seq<Bytes>) returns (at: seq<nat>)
    ensures |at| == |Clean(elems)|
    ensures forall i :: 0 <= i < |at| ==> at[i] < |elems| && elems[at[i]] == Clean(elems)[i] && !Vanishes(elems[at[i]])
    ensures forall i, j :: 0 <= i < j < |at| ==> at[i] < at[j]
  {
    if elems == [] {
      at := [];
    } else {
      var front, e := elems[..|elems| - 1], elems[|elems| - 1];
      at := CleanKeepsOrder(front);
      if e == [] || e == [DOT] {
      } else if e == [DOT, DOT] {
        at := if at == [] then [] else at[..|at| - 1];
      } else {
        at := at + [|front|];
      }
    }
  }

  lemma CleanThree(a: Bytes, b: Bytes, c: Bytes)
    requires !Vanishes(a) && !Vanishes(b) && !Vanishes(c)
    ensures Clean([[], a, b, c]) == [a, b, c]
  {
    var one: seq<Bytes> := [[]];
    var two, three := one + [a], one + [a] + [b];
    var four := three + [c];
    assert one[..0] == [] && two[..1] == one && three[..2] == two && four[..3] == three;
    assert Clean(one) == [];
    assert Clean(two) == [] + [a] == [a];
    assert Clean(three) == [a] + [b];
    assert Clean(four) == [a] + [b] + [c];
    assert four == [[], a, b, c];
  }

  lemma FirstElements(kind: Bytes)
    requires SLASH !in kind
    ensures Split([SLASH] + kind, SLASH) == [[], kind]
  {
    var none: Bytes := [];
    SplitConcat(none, kind, SLASH);
    SplitWhole(kind, SLASH);
    assert none + [SLASH] + kind == [SLASH] + kind;
  }

  /** The path of a printed reference, once decoded, has the object id's own elements in the middle. */
  lemma PathElements(kind: Bytes, id: Bytes, version: Bytes)
    requires SLASH !in kind && SLASH !in version
    ensures Split([SLASH] + kind + [SLASH] + id + [SLASH] + version, SLASH) == [[], kind] + Split(id, SLASH) + [version]
  {
    var front := [SLASH] + kind;
    var middle := front + [SLASH] + id;
    FirstElements(kind);
    SplitConcat(front, id, SLASH);
    SplitConcat(middle, version, SLASH);
    SplitWhole(version, SLASH);
  }

  lemma CutAt(a: Bytes, x: Bytes, sep: byte)
    requires sep !in a
    ensures Cut(a + [sep] + x, sep) == (a, x)
  {
    SplitConcat(a, x, sep);
    SplitWhole(a, sep);
  }

  lemma CutNothing(a: Bytes, sep: byte)
    requires sep !in a
    ensures Cut(a, sep) == (a, [])
  {
    SplitWhole(a, sep);
  }

  /** A peer ID in the base58 text that the node prints: letters and digits. */
  ghost predicate PeerText(peer: string) {
    peer != "" && LettersAndDigits(peer)
  }

  ghost predicate LettersAndDigits(s: string) {
    forall i :: 0 <= i < |s| ==> 'A' <= s[i] <= 'Z' || 'a' <= s[i] <= 'z' || '0' <= s[i] <= '9'
  }

  ghost predicate RefBytes(bs: Bytes) {
    forall i :: 0 <= i < |bs| ==> Plain(bs[i]) || bs[i] == PERCENT || bs[i] == SLASH
  }

  lemma {:induction false} PeerBytes(peer: string)
    requires LettersAndDigits(peer)
    ensures forall b :: b in Encode(peer) ==> Plain(b) && b != PERCENT && b != SLASH && b != DOT && b != AT
  {
    if peer != "" {
      PeerBytes(peer[1..]);
      assert Utf8(peer[0]) == [peer[0] as int];
    }
  }

  /** Parsing a printed reference comes down to its path: the URL syntax is always accepted. */
  lemma PrintedRefParses(peer: string, kind: string, id: string, version: nat, decodes: Bytes -> bool)
    requires PeerText(peer) && decodes(Encode(peer)) && PeerText(kind)
    ensures ParseDetailRef(BuildDetailRef(peer, kind, id, version), decodes)
            == FromPath(Encode(peer), [SLASH] + Encode(kind) + [SLASH] + Encode(id) + [SLASH] + Decimal(version))
  {
    var scheme, tail := Encode(SCHEME + ":"), RefTail(peer, kind, id, version);
    var rest := [SLASH, SLASH] + tail;
    var raw := scheme + rest;
    TailBytes(peer, kind, id, version);
    SchemeBytes();
    assert RefBytes(raw);
    RefBytesAreSafe(raw);
    RefBytesAreSafe(rest);
    CutNothing(raw, HASH);
    assert raw[..|scheme|] == scheme && raw[|scheme|..] == rest;
    AuthorityParses(peer, kind, id, version, decodes);
  }

  lemma TailBytes(peer: string, kind: string, id: string, version: nat)
    requires PeerText(peer) && PeerText(kind)
    ensures RefBytes(RefTail(peer, kind, id, version))
  {
    PeerBytes(peer);
    PeerBytes(kind);
    assert RefBytes(Encode(peer) + [SLASH]) && RefBytes(Encode(kind) + [SLASH]);
    assert RefBytes(IDTail(id, version));
    assert RefBytes(KindTail(kind, id, version));
  }

  lemma RefBytesAreSafe(bs: Bytes)
    requires RefBytes(bs)
    ensures HASH !in bs && QUESTION !in bs && forall i :: 0 <= i < |bs| ==> !ControlByte(bs[i])
  {}

  /** The text after the slashes splits into the peer and the escaped path. */
  lemma AuthoritySplits(peer: string, kind: string, id: string, version: nat)
    requires PeerText(peer) && PeerText(kind)
    ensures var rest := [SLASH, SLASH] + RefTail(peer, kind, id, version);
            && Cut(rest, QUESTION) == (rest, []) && rest[2..] == RefTail(peer, kind, id, version)
    ensures var tail := RefTail(peer, kind, id, version);
            && Cut(tail, SLASH) == (Encode(peer), KindTail(kind, id, version))
            && tail[|Encode(peer)|..] == [SLASH] + KindTail(kind, id, version)
  {
    var rest := [SLASH, SLASH] + RefTail(peer, kind, id, version);
    TailBytes(peer, kind, id, version);
    RefBytesAreSafe(rest);
    CutNothing(rest, QUESTION);
    PeerBytes(peer);
    CutAt(Encode(peer), KindTail(kind, id, version), SLASH);
  }

  lemma AuthorityParses(peer: string, kind: string, id: string, version: nat, decodes: Bytes -> bool)
    requires PeerText(peer) && decodes(Encode(peer)) && PeerText(kind)
    ensures FromAuthority([SLASH, SLASH] + RefTail(peer, kind, id, version), decodes)
            == FromPath(Encode(peer), [SLASH] + Encode(kind) + [SLASH] + Encode(id) + [SLASH] + Decimal(version))
  {
    AuthoritySplits(peer, kind, id, version);
    PeerBytes(peer);
    PeerBytes(kind);
    TailUnescapes(kind, id, version);
  }

  lemma SchemeBytes()
    ensures RefBytes(Encode(SCHEME + ":")) && Lower(Encode(SCHEME + ":")) == Encode(SCHEME + ":")
  {
    var s := SCHEME + ":";
    assert s == "openagent:";
    LowercaseAscii(s);
  }

  lemma {:induction false} LowercaseAscii(s: string)
    requires forall i :: 0 <= i < |s| ==> 'a' <= s[i] <= 'z' || s[i] == ':'
    ensures |Encode(s)| == |s| && forall i :: 0 <= i < |s| ==> Encode(s)[i] == s[i] as int && Plain(Encode(s)[i])
    ensures Lower(Encode(s)) == Encode(s)
  {
    if s != "" {
      LowercaseAscii(s[1..]);
      assert Utf8(s[0]) == [s[0] as int];
    }
  }

  lemma TailUnescapes(kind: string, id: string, version: nat)
    requires PERCENT !in Encode(kind)
    ensures PathUnescape([SLASH] + KindTail(kind, id, version))
            == Some([SLASH] + Encode(kind) + [SLASH] + Encode(id) + [SLASH] + Decimal(version))
  {
    var front, e, back := [SLASH] + Encode(kind) + [SLASH], PathEscape(Encode(id)), [SLASH] + Decimal(version);
    UnescapeShortens(front);
    UnescapeShortens(back);
    UnescapeEscape(Encode(id));
    UnescapeConcat(e, back);
    UnescapeConcat(front, e + back);
    TailShape(Encode(kind), e, Decimal(version));
    TailShape(Encode(kind), Encode(id), Decimal(version));
  }

  lemma TailShape(kind: Bytes, id: Bytes, version: Bytes)
    ensures ([SLASH] + kind + [SLASH]) + (id + ([SLASH] + version)) == [SLASH] + kind + [SLASH] + id + [SLASH] + version
    ensures [SLASH] + (kind + [SLASH] + (id + [SLASH] + version)) == [SLASH] + kind + [SLASH] + id + [SLASH] + version
  {}

  lemma DotNames(id: string)
    ensures Encode(id) == [DOT] <==> id == "."
    ensures Encode(id) == [DOT, DOT] <==> id == ".."
  {
    assert Encode(".") == [DOT] by {
      assert Encode("."[1..]) == [];
    }
    assert Encode("..") == [DOT, DOT] by {
      assert ".."[1..] == ".";
    }
    if Encode(id) == [DOT] {
      EncodeInjective(id, ".");
    }
    if Encode(id) == [DOT, DOT] {
      EncodeInjective(id, "..");
    }
  }

  /** A reference printed by the node parses back to what it was printed from exactly for the object
      ids that survive. The path is decoded twice, so a percent sign never does. */
  lemma RoundTripExact(peer: string, kind: string, id: string, version: nat, decodes: Bytes -> bool)
    requires PeerText(peer) && decodes(Encode(peer)) && PeerText(kind)
    ensures ParseDetailRef(BuildDetailRef(peer, kind, id, version), decodes)
            == Ok(DetailRef(Encode(peer), Encode(kind), Encode(id), Decimal(version)))
            <==> Survives(id)
  {
    PrintedRefParses(peer, kind, id, version, decodes);
    PeerBytes(kind);
    PathElements(Encode(kind), Encode(id), Decimal(version));
    EncodeAscii(id, SLASH);
    EncodeAscii(id, PERCENT);
    assert SLASH as char == '/' && PERCENT as char == '%';
    DotNames(id);
    assert !Vanishes(Encode(kind)) && !Vanishes(Decimal(version)) by {
      assert DOT !in Encode(kind) && DOT !in Decimal(version);
    }
    if Survives(id) {
      PlainIDParses(Encode(peer), Encode(kind), Encode(id), Decimal(version));
    } else {
      MiddleElement(Encode(kind), Encode(id), Decimal(version));
    }
  }

  lemma PlainIDParses(host: Bytes, kind: Bytes, id: Bytes, version: Bytes)
    requires SLASH !in kind && SLASH !in id && SLASH !in version && PERCENT !in id
    requires !Vanishes(kind) && !Vanishes(id) && !Vanishes(version)
    ensures FromPath(host, [SLASH] + kind + [SLASH] + id + [SLASH] + version) == Ok(DetailRef(host, kind, id, version))
  {
    PathElements(kind, id, version);
    SplitWhole(id, SLASH);
    CleanThree(kind, id, version);
    assert [[], kind] + [id] + [version] == [[], kind, id, version];
    UnescapeShortens(id);
  }

  /** If the second cleaned element decodes to the whole id, the id is a single lasting element
      without a percent sign. */
  lemma MiddleElement(kind: Bytes, id: Bytes, version: Bytes)
    ensures var parts := Clean([[], kind] + Split(id, SLASH) + [version]);
            |parts| >= 3 && PathUnescape(parts[1]) == Some(id) ==> SLASH !in id && PERCENT !in id && !Vanishes(id)
  {
    var elems := [[], kind] + Split(id, SLASH) + [version];
    var parts := Clean(elems);
    var at := CleanKeepsOrder(elems);
    if |parts| >= 3 && PathUnescape(parts[1]) == Some(id) {
      assert 1 <= at[0] < at[1] < at[2] < |elems|;
      assert parts[1] == Split(id, SLASH)[at[1] - 2];
      SplitPieces(id, SLASH);
      UnescapeShortens(parts[1]);
      SplitWhole(id, SLASH);
    }
  }
}
