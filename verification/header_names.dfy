/**
 * Response header names: the seventeen common headers (`CommonHeader`),
 * their wire text (`mapCommonHeader`), and `RestfulHttpResponse::HeaderName`,
 * a tagged union of a common header and an arbitrary string whose ordering
 * drives the response header map.
 */
module HeaderNames {
  import opened Base

  /** The enumerators in declaration order; `Ordinal` is their C++ value. */
  datatype CommonHeader =
    | Host | Connection | CacheControl | UserAgent | Accept | AcceptEncoding
    | AcceptLanguage | ContentEncoding | LastModified | Etag | ContentType
    | ContentLength | Date | Expires | Server | XApiVersion | XPoweredBy

  function Ordinal(h: CommonHeader): nat
  {
    match h
    case Host => 0
    case Connection => 1
    case CacheControl => 2
    case UserAgent => 3
    case Accept => 4
    case AcceptEncoding => 5
    case AcceptLanguage => 6
    case ContentEncoding => 7
    case LastModified => 8
    case Etag => 9
    case ContentType => 10
    case ContentLength => 11
    case Date => 12
    case Expires => 13
    case Server => 14
    case XApiVersion => 15
    case XPoweredBy => 16
  }

  /** The wire text of a common header (`utils::mapCommonHeader`). */
  function MapCommonHeader(h: CommonHeader): string
  {
    match h
    case Host => "Host"
    case Connection => "Connection"
    case Accept => "Accept"
    case Date => "Date"
    case Server => "Server"
    case Expires => "Expires"
    case Etag => "Etag"
    case LastModified => "Last-Modified"
    case AcceptEncoding => "Accept-Encoding"
    case AcceptLanguage => "Accept-Language"
    case ContentEncoding => "Content-Encoding"
    case ContentType => "Content-Type"
    case CacheControl => "Cache-Control"
    case UserAgent => "User-Agent"
    case XApiVersion => "X-Api-Version"
    case XPoweredBy => "X-Powered-by"
    case ContentLength => "Content-Length"
  }

  /** Reads a wire text back to the common header it names, if any. */
  function ParseCommonHeader(s: string): Option<CommonHeader>
  {
    if s == "Host" then Some(Host)
    else if s == "Connection" then Some(Connection)
    else if s == "Accept" then Some(Accept)
    else if s == "Date" then Some(Date)
    else if s == "Server" then Some(Server)
    else if s == "Expires" then Some(Expires)
    else if s == "Etag" then Some(Etag)
    else if s == "Last-Modified" then Some(LastModified)
    else if s == "Accept-Encoding" then Some(AcceptEncoding)
    else if s == "Accept-Language" then Some(AcceptLanguage)
    else if s == "Content-Encoding" then Some(ContentEncoding)
    else if s == "Content-Type" then Some(ContentType)
    else if s == "Cache-Control" then Some(CacheControl)
    else if s == "User-Agent" then Some(UserAgent)
    else if s == "X-Api-Version" then Some(XApiVersion)
    else if s == "X-Powered-by" then Some(XPoweredBy)
    else if s == "Content-Length" then Some(ContentLength)
    else None
  }

  /** Every common header has a text, and that text names it and no other. */
  lemma MapCommonHeaderRoundTrip(h: CommonHeader)
    ensures ParseCommonHeader(MapCommonHeader(h)) == Some(h)
    ensures |MapCommonHeader(h)| > 0
  {
  }

  lemma MapCommonHeaderInjective(a: CommonHeader, b: CommonHeader)
    ensures MapCommonHeader(a) == MapCommonHeader(b) <==> a == b
  {
    MapCommonHeaderRoundTrip(a);
    MapCommonHeaderRoundTrip(b);
  }

  lemma OrdinalInjective(a: CommonHeader, b: CommonHeader)
    ensures Ordinal(a) == Ordinal(b) <==> a == b
  {
  }

  /** `std::string::operator<`: lexicographic by character code. */
  predicate StrLess(a: string, b: string)
  {
    if |b| == 0 then false
    else if |a| == 0 then true
    else if a[0] != b[0] then a[0] < b[0]
    else StrLess(a[1..], b[1..])
  }

  lemma {:induction false} StrLessIrreflexive(a: string)
    ensures !StrLess(a, a)
  {
    if |a| > 0 {
      StrLessIrreflexive(a[1..]);
    }
  }

  /** Two different strings are always ordered one way, never both. */
  lemma {:induction false} StrLessTrichotomy(a: string, b: string)
    ensures a != b <==> StrLess(a, b) || StrLess(b, a)
    ensures !(StrLess(a, b) && StrLess(b, a))
  {
    if |a| > 0 && |b| > 0 && a[0] == b[0] {
      StrLessTrichotomy(a[1..], b[1..]);
      assert a == [a[0]] + a[1..] && b == [b[0]] + b[1..];
    } else if a == b {
      StrLessIrreflexive(a);
    }
  }

  lemma {:induction false} StrLessTransitive(a: string, b: string, c: string)
    requires StrLess(a, b) && StrLess(b, c)
    ensures StrLess(a, c)
  {
    if |a| > 0 && a[0] == b[0] && b[0] == c[0] {
      StrLessTransitive(a[1..], b[1..], c[1..]);
    }
  }

  /** A response header name: a common header or a free-form string. */
  datatype HeaderName = Common(header: CommonHeader) | Named(name: string)

  /** `HeaderName::to_string`: the resolved text. */
  function Text(n: HeaderName): string
  {
    match n
    case Common(h) => MapCommonHeader(h)
    case Named(s) => s
  }

  /** `HeaderName::length`. */
  function Length(n: HeaderName): (r: nat)
    ensures r == |Text(n)|
    ensures n.Common? ==> r > 0
  {
    if n.Common? then MapCommonHeaderRoundTrip(n.header); |Text(n)| else |Text(n)|
  }

  /**
   * `HeaderName::operator<`: enum against enum by ordinal, string against
   * string by text, and a mixed pair by resolved text.
   */
  predicate Less(a: HeaderName, b: HeaderName)
  {
    match (a, b)
    case (Common(x), Common(y)) => Ordinal(x) < Ordinal(y)
    case (Named(x), Named(y)) => StrLess(x, y)
    case _ => StrLess(Text(a), Text(b))
  }

  /**
   * The map's notion of "same key": neither name is less than the other
   * exactly when both resolve to the same text.
   */
  lemma EquivalentIffSameText(a: HeaderName, b: HeaderName)
    ensures !Less(a, b) && !Less(b, a) <==> Text(a) == Text(b)
  {
    match (a, b)
    case (Common(x), Common(y)) =>
      MapCommonHeaderInjective(x, y);
      OrdinalInjective(x, y);
    case _ =>
      StrLessTrichotomy(Text(a), Text(b));
  }

  lemma LessIrreflexive(a: HeaderName)
    ensures !Less(a, a)
  {
    EquivalentIffSameText(a, a);
  }

  lemma LessAsymmetric(a: HeaderName, b: HeaderName)
    ensures !(Less(a, b) && Less(b, a))
  {
    match (a, b)
    case (Common(x), Common(y)) =>
    case _ =>
      StrLessTrichotomy(Text(a), Text(b));
  }

  /**
   * The ordering is not transitive: the ordinal order of the enumerators
   * disagrees with the text order, so a mixed triple forms a cycle.
   */
  lemma LessNotTransitive()
    ensures Less(Common(CacheControl), Common(Accept))
    ensures Less(Common(Accept), Named("B"))
    ensures Less(Named("B"), Common(CacheControl))
    ensures !Less(Common(CacheControl), Named("B"))
  {
    assert StrLess("Accept", "B");
    assert StrLess("B", "Cache-Control");
    assert !StrLess("Cache-Control", "B");
  }

  /** Names of one kind only are ordered transitively. */
  lemma LessTransitiveSameKind(a: HeaderName, b: HeaderName, c: HeaderName)
    requires (a.Named? && b.Named? && c.Named?) || (a.Common? && b.Common? && c.Common?)
    requires Less(a, b) && Less(b, c)
    ensures Less(a, c)
  {
    if a.Named? {
      StrLessTransitive(a.name, b.name, c.name);
    }
  }
}
