/**
 * `whs::RestfulHttpResponse`: status, body and the header map, plus the
 * serialisation `toBytes` and the decimal conversion it uses for
 * `Content-Length`.
 *
 * The header map is a `std::map` ordered by `HeaderName::operator<`. Two
 * names are the same key exactly when they resolve to the same text
 * (`HeaderNames.EquivalentIffSameText`), so the model keeps a list of
 * entries with pairwise different texts, looks keys up by text, and puts a
 * new entry before the first entry its name is less than.
 */
module Responses {
  import opened Base
  import opened HeaderNames

  datatype Header = Header(name: HeaderName, value: string)

  /** Index of the entry whose name has text `t`, or -1. */
  function FindText(hs: seq<Header>, t: string): (r: int)
    ensures -1 <= r < |hs|
    ensures r >= 0 ==> Text(hs[r].name) == t
    ensures r == -1 <==> forall k :: 0 <= k < |hs| ==> Text(hs[k].name) != t
  {
    if |hs| == 0 then -1
    else if Text(hs[|hs| - 1].name) == t then |hs| - 1
    else FindText(hs[..|hs| - 1], t)
  }

  /** The map invariant: no two entries are the same key. */
  predicate Unique(hs: seq<Header>)
  {
    forall i, j :: 0 <= i < j < |hs| ==> Text(hs[i].name) != Text(hs[j].name)
  }

  /** Where the tree puts a new key: before the first entry it is less than. */
  function InsertPos(hs: seq<Header>, n: HeaderName): (k: nat)
    ensures k <= |hs|
    ensures forall i :: 0 <= i < k ==> !Less(n, hs[i].name)
    ensures k < |hs| ==> Less(n, hs[k].name)
  {
    if |hs| == 0 || Less(n, hs[0].name) then 0 else 1 + InsertPos(hs[1..], n)
  }

  /** The value stored under a header text, if any. */
  function Get(hs: seq<Header>, t: string): (r: Option<string>)
    ensures r.Some? <==> FindText(hs, t) >= 0
  {
    var i := FindText(hs, t);
    if i >= 0 then Some(hs[i].value) else None
  }

  /** `std::map::emplace`: inserts only when no entry has the same text. */
  function EmplaceHeader(hs: seq<Header>, n: HeaderName, v: string): (r: seq<Header>)
    requires Unique(hs)
    ensures Unique(r)
    ensures FindText(hs, Text(n)) >= 0 ==> r == hs
    ensures FindText(hs, Text(n)) < 0 ==> |r| == |hs| + 1 && multiset(r) == multiset(hs) + multiset{Header(n, v)}
  {
    if FindText(hs, Text(n)) >= 0 then hs
    else
      var k := InsertPos(hs, n);
      InsertKeepsUnique(hs, k, Header(n, v));
      hs[..k] + [Header(n, v)] + hs[k..]
  }

  /** Inserting an entry whose text is new keeps the keys distinct. */
  lemma InsertKeepsUnique(hs: seq<Header>, k: nat, h: Header)
    requires Unique(hs) && k <= |hs|
    requires forall i :: 0 <= i < |hs| ==> Text(hs[i].name) != Text(h.name)
    ensures Unique(hs[..k] + [h] + hs[k..])
    ensures multiset(hs[..k] + [h] + hs[k..]) == multiset(hs) + multiset{h}
  {
    var r := hs[..k] + [h] + hs[k..];
    forall i | 0 <= i < |r| ensures r[i] == (if i < k then hs[i] else if i == k then h else hs[i - 1]) {
    }
    InsertedMultiset(hs, k, h);
  }

  /** Splicing one element into a sequence adds it to the multiset. */
  lemma InsertedMultiset<T>(s: seq<T>, k: nat, x: T)
    requires k <= |s|
    ensures multiset(s[..k] + [x] + s[k..]) == multiset(s) + multiset{x}
  {
    assert s == s[..k] + s[k..];
  }

  /** `operator[](name) = v`: overwrites the value of an existing key, or inserts it. */
  function SetHeader(hs: seq<Header>, n: HeaderName, v: string): (r: seq<Header>)
    requires Unique(hs)
    ensures Unique(r)
    ensures Get(r, Text(n)) == Some(v)
    ensures forall t :: t != Text(n) ==> Get(r, t) == Get(hs, t)
  {
    var i := FindText(hs, Text(n));
    if i >= 0 then
      var r := hs[i := Header(hs[i].name, v)];
      UniqueFind(r, i);
      FindTextSame(hs, r);
      r
    else
      var r := EmplaceHeader(hs, n, v);
      EmplacedGet(hs, n, v);
      r
  }

  lemma UniqueFind(hs: seq<Header>, i: nat)
    requires Unique(hs) && i < |hs|
    ensures FindText(hs, Text(hs[i].name)) == i
  {
  }

  /** Replacing values without touching names leaves every lookup's position alone. */
  lemma {:induction false} FindTextSame(a: seq<Header>, b: seq<Header>)
    requires |a| == |b|
    requires forall k :: 0 <= k < |a| ==> a[k].name == b[k].name
    ensures forall t :: FindText(a, t) == FindText(b, t)
  {
    forall t ensures FindText(a, t) == FindText(b, t) {
      var r := FindText(a, t);
      if r >= 0 {
        assert Text(b[r].name) == t;
      }
      var s := FindText(b, t);
      if s >= 0 {
        assert Text(a[s].name) == t;
      }
      if r >= 0 && s >= 0 && r != s {
        FindTextIsLast(a, t);
        FindTextIsLast(b, t);
      }
    }
  }

  lemma {:induction false} FindTextIsLast(hs: seq<Header>, t: string)
    ensures forall k :: FindText(hs, t) < k < |hs| ==> Text(hs[k].name) != t
  {
    if |hs| > 0 && Text(hs[|hs| - 1].name) != t {
      FindTextIsLast(hs[..|hs| - 1], t);
    }
  }

  /**
   * The key-value behaviour of `emplace`: a fresh key reads back its value,
   * a present key keeps its first value, and other keys are unaffected.
   */
  lemma EmplacedGet(hs: seq<Header>, n: HeaderName, v: string)
    requires Unique(hs)
    ensures Get(EmplaceHeader(hs, n, v), Text(n)) == (if Get(hs, Text(n)).Some? then Get(hs, Text(n)) else Some(v))
    ensures forall t :: t != Text(n) ==> Get(EmplaceHeader(hs, n, v), t) == Get(hs, t)
  {
    var r := EmplaceHeader(hs, n, v);
    if FindText(hs, Text(n)) < 0 {
      var k := InsertPos(hs, n);
      InsertedAt(hs, k, Header(n, v));
      UniqueFind(r, k);
      forall t | t != Text(n) ensures Get(r, t) == Get(hs, t) {
        InsertedGet(hs, k, Header(n, v), t);
      }
    }
  }

  lemma InsertedAt(hs: seq<Header>, k: nat, h: Header)
    requires k <= |hs|
    ensures var r := hs[..k] + [h] + hs[k..];
      |r| == |hs| + 1 && r[k] == h
      && (forall i :: 0 <= i < k ==> r[i] == hs[i])
      && (forall i :: k < i < |r| ==> r[i] == hs[i - 1])
  {
  }

  /** Lookups of other texts see through an insertion. */
  lemma InsertedGet(hs: seq<Header>, k: nat, h: Header, t: string)
    requires Unique(hs) && k <= |hs| && t != Text(h.name)
    requires forall i :: 0 <= i < |hs| ==> Text(hs[i].name) != Text(h.name)
    ensures Get(hs[..k] + [h] + hs[k..], t) == Get(hs, t)
  {
    var r := hs[..k] + [h] + hs[k..];
    InsertKeepsUnique(hs, k, h);
    InsertedAt(hs, k, h);
    var i := FindText(hs, t);
    if i >= 0 {
      UniqueFind(hs, i);
      var j := if i < k then i else i + 1;
      assert r[j] == hs[i];
      UniqueFind(r, j);
    } else {
      forall m | 0 <= m < |r| ensures Text(r[m].name) != t {
        if m < k { assert r[m] == hs[m]; } else if m > k { assert r[m] == hs[m - 1]; }
      }
    }
  }

  datatype Response = Response(body: seq<char>, status: int, bodySize: nat, headers: seq<Header>)

  predicate Valid(resp: Response)
  {
    Unique(resp.headers) && resp.bodySize <= |resp.body|
  }

  /** The constructor: status 200, no body, no headers. */
  function NewResponse(): (r: Response)
    ensures Valid(r) && r.status == 200 && r.bodySize == 0 && r.headers == []
  {
    Response([], 200, 0, [])
  }

  /** `addHeader(string, value)`. */
  function AddHeader(resp: Response, field: string, v: string): (r: Response)
    requires Valid(resp)
    ensures Valid(r) && r == resp.(headers := r.headers)
  {
    resp.(headers := EmplaceHeader(resp.headers, Named(field), v))
  }

  /** `addHeader(CommonHeader, value)`. */
  function AddCommonHeader(resp: Response, h: CommonHeader, v: string): (r: Response)
    requires Valid(resp)
    ensures Valid(r) && r == resp.(headers := r.headers)
  {
    resp.(headers := EmplaceHeader(resp.headers, Common(h), v))
  }

  /** `addHeaderIfNotExists`: inserts, and reports whether it did. */
  function AddHeaderIfNotExists(resp: Response, h: CommonHeader, v: string): (r: (Response, bool))
    requires Valid(resp)
    ensures Valid(r.0)
    ensures r.1 <==> Get(resp.headers, MapCommonHeader(h)).None?
    ensures !r.1 ==> r.0 == resp
    ensures r.1 ==> Get(r.0.headers, MapCommonHeader(h)) == Some(v)
    ensures forall t :: t != MapCommonHeader(h) ==> Get(r.0.headers, t) == Get(resp.headers, t)
    ensures r.0 == resp.(headers := r.0.headers)
  {
    var present := Get(resp.headers, MapCommonHeader(h)).Some?;
    var r := AddCommonHeader(resp, h, v);
    EmplacedGet(resp.headers, Common(h), v);
    (r, !present)
  }

  /**
   * `addHeader(CommonHeader, v)` read back: an existing header keeps its
   * value, a missing one reads `v`, every other name reads as before.
   */
  lemma AddCommonHeaderGet(resp: Response, h: CommonHeader, v: string)
    requires Valid(resp)
    ensures Get(AddCommonHeader(resp, h, v).headers, MapCommonHeader(h)) ==
      (if Get(resp.headers, MapCommonHeader(h)).Some? then Get(resp.headers, MapCommonHeader(h)) else Some(v))
    ensures forall t :: t != MapCommonHeader(h) ==> Get(AddCommonHeader(resp, h, v).headers, t) == Get(resp.headers, t)
  {
    EmplacedGet(resp.headers, Common(h), v);
  }

  /** `operator[](CommonHeader) = v` and `operator[](string) = v`. */
  function SetIndex(resp: Response, n: HeaderName, v: string): (r: Response)
    requires Valid(resp)
    ensures Valid(r) && Get(r.headers, Text(n)) == Some(v)
    ensures forall t :: t != Text(n) ==> Get(r.headers, t) == Get(resp.headers, t)
    ensures r == resp.(headers := r.headers)
  {
    resp.(headers := SetHeader(resp.headers, n, v))
  }

  /** `operator[](pair)`: `std::map::insert` under a string name; reports whether it inserted. */
  function InsertPair(resp: Response, field: string, v: string): (r: (Response, bool))
    requires Valid(resp)
    ensures Valid(r.0)
    ensures r.1 <==> Get(resp.headers, field).None?
  {
    var present := Get(resp.headers, field).Some?;
    (AddHeader(resp, field, v), !present)
  }

  function SetStatus(resp: Response, s: int): (r: Response)
    ensures r.status == s && r == resp.(status := s)
  {
    resp.(status := s)
  }

  /* ---------------------------------------------------------------- */
  /* Decimal text                                                      */
  /* ---------------------------------------------------------------- */

  function Pow10(n: nat): (r: nat)
    ensures r >= 1
  {
    if n == 0 then 1 else 10 * Pow10(n - 1)
  }

  /** The number of decimal digits of `v` (at least one). */
  function NumDigits(v: nat): (n: nat)
    ensures n >= 1 && v < Pow10(n)
    ensures v >= 10 ==> n >= 2 && Pow10(n - 1) <= v
  {
    if v < 10 then 1 else 1 + NumDigits(v / 10)
  }

  /** The digit count is determined by the power-of-ten bracket `v` lies in. */
  lemma {:induction false} NumDigitsOfBracket(v: nat, n: nat)
    requires n >= 1 && v < Pow10(n) && (n == 1 || Pow10(n - 1) <= v)
    ensures NumDigits(v) == n
  {
    if n > 1 {
      NumDigitsOfBracket(v / 10, n - 1);
    }
  }

  /**
   * `getDigits`: one less than the number of digits. Above 9999 the source
   * calls `std::log10`; the model takes the exact value.
   */
  function GetDigits(v: nat): (d: nat)
    ensures d + 1 == NumDigits(v)
  {
    assert Pow10(1) == 10 && Pow10(2) == 100 && Pow10(3) == 1000 && Pow10(4) == 10000;
    if v < 10 then 0
    else if v < 100 then NumDigitsOfBracket(v, 2); 1
    else if v < 1000 then NumDigitsOfBracket(v, 3); 2
    else if v < 10000 then NumDigitsOfBracket(v, 4); 3
    else NumDigits(v) - 1
  }

  predicate IsDigit(c: char) { '0' <= c <= '9' }

  predicate AllDigits(s: string)
  {
    forall k :: 0 <= k < |s| ==> IsDigit(s[k])
  }

  function DigitVal(c: char): nat
    requires IsDigit(c)
  {
    c as int - '0' as int
  }

  function DigitChar(d: nat): (c: char)
    requires d < 10
    ensures IsDigit(c) && DigitVal(c) == d
  {
    ('0' as int + d) as char
  }

  /** The reference decimal text: most significant digit first, no leading zero. */
  function Decimal(v: nat): (s: string)
    ensures |s| == NumDigits(v) && AllDigits(s)
    ensures |s| > 1 ==> s[0] != '0'
  {
    if v < 10 then [DigitChar(v)] else Decimal(v / 10) + [DigitChar(v % 10)]
  }

  /** The value of a string of digits. */
  function DecimalValue(s: string): nat
    requires AllDigits(s)
  {
    if s == [] then 0 else DecimalValue(s[..|s| - 1]) * 10 + DigitVal(s[|s| - 1])
  }

  /** The decimal text reads back to the number. */
  lemma {:induction false} DecimalRoundTrip(v: nat)
    ensures DecimalValue(Decimal(v)) == v
  {
    if v >= 10 {
      DecimalRoundTrip(v / 10);
      var s := Decimal(v);
      assert s[..|s| - 1] == Decimal(v / 10);
    }
  }

  /** Digit strings of the same length and value are the same string. */
  lemma {:induction false} DigitsUnique(a: string, b: string)
    requires |a| == |b| && AllDigits(a) && AllDigits(b)
    requires DecimalValue(a) == DecimalValue(b)
    ensures a == b
  {
    if a != [] {
      var n := |a| - 1;
      assert DigitVal(a[n]) == DecimalValue(a) % 10 && DigitVal(b[n]) == DecimalValue(b) % 10;
      assert DecimalValue(a[..n]) == DecimalValue(a) / 10;
      assert DecimalValue(b[..n]) == DecimalValue(b) / 10;
      DigitsUnique(a[..n], b[..n]);
      assert a == a[..n] + [a[n]] && b == b[..n] + [b[n]];
    }
  }

  /** One turn of the `itoa` loop keeps `value == DecimalValue(s) * 10^(d+1) + v`. */
  lemma ItoaStep(s: string, v: nat, d: nat, value: nat)
    requires AllDigits(s) && v < Pow10(d + 1)
    requires DecimalValue(s) * Pow10(d + 1) + v == value
    ensures v / Pow10(d) < 10
    ensures AllDigits(s + [DigitChar(v / Pow10(d))])
    ensures DecimalValue(s + [DigitChar(v / Pow10(d))]) * Pow10(d) + v % Pow10(d) == value
  {
    var p := Pow10(d);
    assert Pow10(d + 1) == 10 * p;
    DigitPeel(DecimalValue(s), v, p, value);
    var s' := s + [DigitChar(v / p)];
    assert s'[..|s'| - 1] == s;
  }

  /** The arithmetic of one turn: the leading digit `v / p` moves from `v` into the prefix's value `a`. */
  lemma DigitPeel(a: nat, v: nat, p: nat, value: nat)
    requires p > 0 && v < 10 * p && a * (10 * p) + v == value
    ensures v / p < 10 && (a * 10 + v / p) * p + v % p == value
  {
    var q := v / p;
    assert v == q * p + v % p;
    assert q < 10;
    calc {
      (a * 10 + q) * p + v % p;
      a * (10 * p) + (q * p + v % p);
    }
  }

  /**
   * `itoa`: the loop that emits `v / 10^d + '0'` and keeps `v % 10^d`, for
   * `d` from `getDigits(value)` down to zero.
   */
  method Itoa(value: nat) returns (s: string)
    ensures AllDigits(s) && DecimalValue(s) == value
    ensures s == Decimal(value)
  {
    var d: int := GetDigits(value);
    var v: nat := value;
    s := [];
    while d >= 0
      invariant -1 <= d < NumDigits(value)
      invariant AllDigits(s) && |s| + d + 1 == NumDigits(value)
      invariant v < Pow10(d + 1)
      invariant DecimalValue(s) * Pow10(d + 1) + v == value
      decreases d + 1
    {
      ItoaStep(s, v, d, value);
      var base := Pow10(d);
      s := s + [DigitChar(v / base)];
      v := v % base;
      d := d - 1;
    }
    DecimalRoundTrip(value);
    DigitsUnique(s, Decimal(value));
  }

  /* ---------------------------------------------------------------- */
  /* setBody and toBytes                                               */
  /* ---------------------------------------------------------------- */

  /**
   * `setBody`: default `Content-Type` (also replacing an empty one),
   * `Content-Length` and `Content-Encoding` when absent, and a body size
   * truncated to `unsigned int`. The source copies `size` bytes of `buf`
   * later, so `size` may not exceed it.
   */
  function SetBody(resp: Response, buf: seq<char>, size: nat): (r: Response)
    requires Valid(resp) && size <= |buf|
    ensures Valid(r) && r.status == resp.status && r.body == buf
    ensures r.bodySize == size % U32 && r.bodySize <= size
  {
    U32ModBelow(size);
    Response(buf, resp.status, size % U32, BodyHeaders(resp.headers, size))
  }

  /** The header part of `setBody`. */
  function BodyHeaders(hs: seq<Header>, size: nat): (r: seq<Header>)
    requires Unique(hs)
    ensures Unique(r)
  {
    var h3 := EmplaceHeader(TypeFilled(hs), Common(ContentLength), Decimal(size));
    EmplaceHeader(h3, Common(ContentEncoding), "identity")
  }

  /** The Content-Type step of `setBody`: emplaced as "text/plain", and overwritten when empty. */
  function TypeFilled(hs: seq<Header>): (r: seq<Header>)
    requires Unique(hs)
    ensures Unique(r)
  {
    var h1 := EmplaceHeader(hs, Common(ContentType), "text/plain");
    if Get(h1, TypeText) == Some("") then SetHeader(h1, Common(ContentType), "text/plain") else h1
  }

  /** After the Content-Type step the type is non-empty, and a non-empty one is kept. */
  lemma TypeFilledReads(hs: seq<Header>)
    requires Unique(hs)
    ensures Get(TypeFilled(hs), TypeText).Some? && Get(TypeFilled(hs), TypeText).value != ""
    ensures Get(hs, TypeText).None? ==> Get(TypeFilled(hs), TypeText) == Some("text/plain")
    ensures Get(hs, TypeText).Some? && Get(hs, TypeText).value != "" ==> Get(TypeFilled(hs), TypeText) == Get(hs, TypeText)
  {
    EmplacedGet(hs, Common(ContentType), "text/plain");
  }

  /** The Content-Type step changes no other name. */
  lemma TypeFilledLeaves(hs: seq<Header>, t: string)
    requires Unique(hs) && t != TypeText
    ensures Get(TypeFilled(hs), t) == Get(hs, t)
  {
    EmplacedGet(hs, Common(ContentType), "text/plain");
  }

  /** `emplaceHeader` read back at its own name. */
  lemma EmplacedReads(hs: seq<Header>, n: HeaderName, v: string)
    requires Unique(hs)
    ensures Get(EmplaceHeader(hs, n, v), Text(n)) == (if Get(hs, Text(n)).Some? then Get(hs, Text(n)) else Some(v))
  {
    EmplacedGet(hs, n, v);
  }

  /** `emplaceHeader` read back at another name. */
  lemma EmplacedLeaves(hs: seq<Header>, n: HeaderName, v: string, t: string)
    requires Unique(hs) && t != Text(n)
    ensures Get(EmplaceHeader(hs, n, v), t) == Get(hs, t)
  {
    EmplacedGet(hs, n, v);
  }

  const TypeText: string := MapCommonHeader(ContentType)
  const LengthText: string := MapCommonHeader(ContentLength)
  const EncodingText: string := MapCommonHeader(ContentEncoding)

  /**
   * After `setBody` the response has a non-empty `Content-Type`, and
   * `Content-Length` and `Content-Encoding` are the ones it already had, or
   * else the body size in decimal and `identity`.
   */
  lemma SetBodyHeaders(resp: Response, buf: seq<char>, size: nat)
    requires Valid(resp) && size <= |buf|
    ensures var hs := SetBody(resp, buf, size).headers;
      && Get(hs, TypeText).Some? && Get(hs, TypeText).value != ""
      && (Get(resp.headers, TypeText).None? ==> Get(hs, TypeText) == Some("text/plain"))
      && Get(hs, LengthText) == (if Get(resp.headers, LengthText).Some? then Get(resp.headers, LengthText) else Some(Decimal(size)))
      && Get(hs, EncodingText) == (if Get(resp.headers, EncodingText).Some? then Get(resp.headers, EncodingText) else Some("identity"))
    ensures var hs := SetBody(resp, buf, size).headers;
      Get(resp.headers, TypeText).Some? && Get(resp.headers, TypeText).value != "" ==> Get(hs, TypeText) == Get(resp.headers, TypeText)
    ensures var hs := SetBody(resp, buf, size).headers;
      forall t :: t != TypeText && t != LengthText && t != EncodingText ==> Get(hs, t) == Get(resp.headers, t)
  {
    MapCommonHeaderInjective(ContentType, ContentLength);
    MapCommonHeaderInjective(ContentType, ContentEncoding);
    MapCommonHeaderInjective(ContentLength, ContentEncoding);
    var hs := resp.headers;
    var h2 := TypeFilled(hs);
    var cl, ce := Common(ContentLength), Common(ContentEncoding);
    var h3 := EmplaceHeader(h2, cl, Decimal(size));
    TypeFilledReads(hs);
    EmplacedLeaves(h2, cl, Decimal(size), TypeText);
    EmplacedLeaves(h3, ce, "identity", TypeText);
    TypeFilledLeaves(hs, LengthText);
    EmplacedReads(h2, cl, Decimal(size));
    EmplacedLeaves(h3, ce, "identity", LengthText);
    TypeFilledLeaves(hs, EncodingText);
    EmplacedLeaves(h2, cl, Decimal(size), EncodingText);
    EmplacedReads(h3, ce, "identity");
    forall t | t != TypeText && t != LengthText && t != EncodingText
      ensures Get(SetBody(resp, buf, size).headers, t) == Get(hs, t)
    {
      TypeFilledLeaves(hs, t);
      EmplacedLeaves(h2, cl, Decimal(size), t);
      EmplacedLeaves(h3, ce, "identity", t);
    }
  }

  /** The three status characters: hundreds, tens and units, each plus '0'. */
  function StatusDigits(status: int): (s: string)
    ensures |s| == 3
  {
    [ByteChar(TDiv(status, 100) + '0' as int),
     ByteChar(TDiv(TMod(status, 100), 10) + '0' as int),
     ByteChar(TMod(status, 10) + '0' as int)]
  }

  /** A three-digit status is written as its own decimal text. */
  lemma StatusDigitsRoundTrip(status: int)
    requires 100 <= status <= 999
    ensures AllDigits(StatusDigits(status))
    ensures DecimalValue(StatusDigits(status)) == status
    ensures StatusDigits(status) == Decimal(status)
  {
    var s := StatusDigits(status);
    StatusDigitVals(status);
    ThreeDigitValue(s);
    DecimalRoundTrip(status);
    assert Pow10(3) == 1000 && Pow10(2) == 100;
    NumDigitsOfBracket(status, 3);
    DigitsUnique(s, Decimal(status));
  }

  /** The three characters are the hundreds, tens and units of the status. */
  lemma StatusDigitVals(status: int)
    requires 100 <= status <= 999
    ensures var s := StatusDigits(status);
      && AllDigits(s)
      && (DigitVal(s[0]) * 10 + DigitVal(s[1])) * 10 + DigitVal(s[2]) == status
  {
    var s := StatusDigits(status);
    var h, t, u := status / 100, (status % 100) / 10, status % 10;
    assert TDiv(status, 100) == h && TMod(status, 100) == status % 100;
    assert TDiv(status % 100, 10) == t && TMod(status, 10) == u;
    assert s[0] as int == h + '0' as int;
    assert s[1] as int == t + '0' as int;
    assert s[2] as int == u + '0' as int;
    assert (h * 10 + t) * 10 + u == status;
  }

  /** The value of a three-digit text. */
  lemma ThreeDigitValue(s: string)
    requires |s| == 3 && AllDigits(s)
    ensures DecimalValue(s) == (DigitVal(s[0]) * 10 + DigitVal(s[1])) * 10 + DigitVal(s[2])
  {
    assert s[..2][..1][..0] == [];
    assert s[..2][..1] == [s[0]] && s[..2] == [s[0], s[1]];
    assert DecimalValue(s[..2][..1]) == DigitVal(s[0]);
    assert DecimalValue(s[..2]) == DigitVal(s[0]) * 10 + DigitVal(s[1]);
  }

  /** A status of four digits does not fit: its first character is past '9'. */
  lemma StatusDigitsOverflow()
    ensures StatusDigits(1000) == [':', '0', '0']
  {
  }

  /** `calcHttpResponseSize`: the bytes the serialiser reserves. */
  function CalcSize(hs: seq<Header>, bodySize: nat): nat
  {
    47 + HeadersSize(hs) + 2 + (if bodySize > 0 then bodySize + 2 else 0)
  }

  function HeadersSize(hs: seq<Header>): nat
  {
    if hs == [] then 0 else |Text(hs[0].name)| + |hs[0].value| + 4 + HeadersSize(hs[1..])
  }

  /** One header line: name and value each up to their first NUL. */
  function HeaderLine(h: Header): string
  {
    CStr(Text(h.name)) + ": " + CStr(h.value) + "\r\n"
  }

  /** The lines `line` gives for the elements of `xs`, one after the other. */
  function Lines<T>(xs: seq<T>, line: T -> string): string
  {
    if xs == [] then "" else line(xs[0]) + Lines(xs[1..], line)
  }

  /** The header lines, in the order the headers are stored. */
  function HeaderLines(hs: seq<Header>): string
  {
    Lines(hs, HeaderLine)
  }

  /** The lines of two runs are the lines of the first, then those of the second. */
  lemma {:induction false} LinesAppend<T>(a: seq<T>, b: seq<T>, line: T -> string)
    ensures Lines(a + b, line) == Lines(a, line) + Lines(b, line)
    decreases |a|
  {
    if a == [] {
      assert a + b == b;
    } else {
      assert (a + b)[0] == a[0] && (a + b)[1..] == a[1..] + b;
      LinesAppend(a[1..], b, line);
    }
  }

  /** Element `i`'s line comes after the lines of the elements before it and before those after it. */
  lemma LinesSplit<T>(xs: seq<T>, i: nat, line: T -> string)
    requires i < |xs|
    ensures Lines(xs, line) == Lines(xs[..i], line) + line(xs[i]) + Lines(xs[i + 1..], line)
  {
    assert xs == xs[..i] + xs[i..];
    LinesAppend(xs[..i], xs[i..], line);
    assert xs[i..][1..] == xs[i + 1..];
  }

  /** The header lines take no more than the bytes reserved for them. */
  lemma {:induction false} HeaderLinesFit(hs: seq<Header>)
    ensures |HeaderLines(hs)| <= HeadersSize(hs)
    decreases |hs|
  {
    if hs != [] {
      HeaderLinesFit(hs[1..]);
    }
  }

  /** The lines of two runs of headers are the lines of the first, then those of the second. */
  lemma {:induction false} HeaderLinesAppend(a: seq<Header>, b: seq<Header>)
    ensures HeaderLines(a + b) == HeaderLines(a) + HeaderLines(b)
    decreases |a|
  {
    if a == [] {
      assert a + b == b;
    } else {
      assert (a + b)[0] == a[0] && (a + b)[1..] == a[1..] + b;
      HeaderLinesAppend(a[1..], b);
    }
  }

  /** Header `i`'s line comes after the lines of the headers before it and before those after it. */
  lemma HeaderLinesSplit(hs: seq<Header>, i: nat)
    requires i < |hs|
    ensures HeaderLines(hs) == HeaderLines(hs[..i]) + HeaderLine(hs[i]) + HeaderLines(hs[i + 1..])
  {
    assert hs == hs[..i] + hs[i..];
    HeaderLinesAppend(hs[..i], hs[i..]);
    assert hs[i..][1..] == hs[i + 1..];
  }

  /** Everything before the body: status line, header lines, blank line. */
  function Head(resp: Response, statusText: int -> string): string
  {
    StatusLine(resp.status, statusText) + HeaderLines(resp.headers) + "\r\n"
  }

  /**
   * The response `toBytes` finalises: an empty body forces
   * `Content-Length: 0`.
   */
  function Finalise(resp: Response): (r: Response)
    requires Valid(resp)
    ensures Valid(r) && r.body == resp.body && r.bodySize == resp.bodySize && r.status == resp.status
    ensures resp.bodySize == 0 ==> Get(r.headers, "Content-Length") == Some("0")
    ensures resp.bodySize > 0 ==> r == resp
  {
    if resp.bodySize == 0 then SetIndex(resp, Common(ContentLength), "0") else resp
  }

  /**
   * `toBytes`: the serialised response, with `statusText` standing for
   * `http_status_str`. The body follows the blank line with no terminator.
   */
  function ToBytes(resp: Response, statusText: int -> string): (r: (Response, string))
    requires Valid(resp)
    ensures r.0 == Finalise(resp)
    ensures r.1 == Head(r.0, statusText) + resp.body[..resp.bodySize]
  {
    var f := Finalise(resp);
    (f, Head(f, statusText) + resp.body[..resp.bodySize])
  }

  /** The status line: version, the three status digits, the status text. */
  function StatusLine(status: int, statusText: int -> string): string
  {
    "HTTP/1.1 " + StatusDigits(status) + " " + CStr(statusText(status)) + "\r\n"
  }

  /**
   * The output opens with the status line, "HTTP/1.1 " and the status
   * digits first; the header lines of the finalised response follow, one
   * per header in storage order (`LineWithin` places each), up to the
   * blank line at `e`; after it come exactly the body's first `bodySize`
   * bytes, with nothing after them.
   */
  lemma ToBytesShape(resp: Response, statusText: int -> string)
    requires Valid(resp)
    ensures var out := ToBytes(resp, statusText).1;
      var st := StatusLine(resp.status, statusText);
      var e := |st| + |HeaderLines(Finalise(resp).headers)|;
      && |out| == e + 2 + resp.bodySize
      && out[..|st|] == st && out[..9] == "HTTP/1.1 " && out[9..12] == StatusDigits(resp.status)
      && out[|st|..e] == HeaderLines(Finalise(resp).headers)
      && out[e..e + 2] == "\r\n"
      && out[e + 2..] == resp.body[..resp.bodySize]
  {
    var st := StatusLine(resp.status, statusText);
    var hl := HeaderLines(Finalise(resp).headers);
    var body := resp.body[..resp.bodySize];
    assert ToBytes(resp, statusText).1 == st + hl + "\r\n" + body;
    StatusLineOpens(resp.status, statusText);
    Parts(st, hl, body);
  }

  /** Where the parts of `st + hl + "\r\n" + body` sit, and the start of `st` in it. */
  lemma Parts(st: string, hl: string, body: string)
    requires |st| >= 12
    ensures var out := st + hl + "\r\n" + body;
      var e := |st| + |hl|;
      && |out| == e + 2 + |body|
      && out[..|st|] == st && out[..9] == st[..9] && out[9..12] == st[9..12]
      && out[|st|..e] == hl && out[e..e + 2] == "\r\n" && out[e + 2..] == body
  {
    Layout(st, hl, "\r\n", body);
  }

  /** The status line opens with the version and the three status digits. */
  lemma StatusLineOpens(status: int, statusText: int -> string)
    ensures var st := StatusLine(status, statusText);
      |st| >= 12 && st[..9] == "HTTP/1.1 " && st[9..12] == StatusDigits(status)
  {
    Layout("HTTP/1.1 ", StatusDigits(status), " " + CStr(statusText(status)) + "\r\n", "");
  }

  /**
   * In any text made of `pre`, the lines of `xs` and `post`, element `i`'s
   * line follows `pre` and the lines of the elements before it.
   */
  lemma LineWithin<T>(pre: string, xs: seq<T>, i: nat, line: T -> string, post: string)
    requires i < |xs|
    ensures var out := pre + Lines(xs, line) + post;
      var o := |pre| + |Lines(xs[..i], line)|;
      o + |line(xs[i])| <= |out| && out[o..o + |line(xs[i])|] == line(xs[i])
  {
    LinesSplit(xs, i, line);
    var x, l, z := Lines(xs[..i], line), line(xs[i]), Lines(xs[i + 1..], line);
    var out := pre + Lines(xs, line) + post;
    assert out == (pre + x) + l + (z + post);
    Within(out, 0, out, pre + x, l, z + post);
  }

  /** Where `x + y + z` sits inside `out` at `at`, `y` sits at `at + |x|`. */
  lemma Within(out: string, at: nat, whole: string, x: string, y: string, z: string)
    requires whole == x + y + z && at + |whole| <= |out| && out[at..at + |whole|] == whole
    ensures at + |x| + |y| <= |out| && out[at + |x|..at + |x| + |y|] == y
  {
    forall k | 0 <= k < |y|
      ensures out[at + |x| + k] == y[k]
    {
      assert out[at + |x| + k] == out[at..at + |whole|][|x| + k] == whole[|x| + k];
    }
  }


  /** Where the four parts of `a + b + c + d` sit. */
  lemma Layout(a: string, b: string, c: string, d: string)
    ensures var s := a + b + c + d;
      && s[..|a|] == a && s[|a|..|a| + |b|] == b && s[|a| + |b|..|a| + |b| + |c|] == c
      && s[|s| - |d|..] == d
  {
  }

  /**
   * The allocation of `calcHttpResponseSize(...) + 5` bytes holds the
   * output, and the source's check before the body copy holds, whenever
   * the status text has at most 32 characters (the longest standard one
   * has 31).
   */
  lemma ToBytesFits(resp: Response, statusText: int -> string)
    requires Valid(resp)
    requires |CStr(statusText(resp.status))| <= 32
    ensures var f := Finalise(resp);
      && CalcSize(f.headers, f.bodySize) + 5 - |Head(f, statusText)| > f.bodySize
      && |ToBytes(resp, statusText).1| <= CalcSize(f.headers, f.bodySize) + 5
  {
    HeaderLinesFit(Finalise(resp).headers);
  }
}
