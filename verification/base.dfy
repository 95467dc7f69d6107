/**
 * Shared vocabulary: optional values, the C-string view of a `std::string`,
 * the character found at a raw pointer position, C integer division and
 * ASCII lower-casing.
 */
module Base {

  datatype Option<+T> = None | Some(value: T)

  const NUL: char := '\0'

  /** 2^32: `unsigned int` fields of the server wrap modulo this value. */
  const U32: nat := 0x1_0000_0000

  lemma U32ModBelow(x: nat)
    ensures x % U32 <= x && x % U32 < U32
  {
  }

  /** A string map as the server's `std::map<std::string, std::string>`. */
  type StrMap = map<string, string>

  /**
   * The part of `s` a loop over `s.c_str()` visits: everything before the
   * first NUL character.
   */
  function CStr(s: string): (r: string)
    ensures |r| <= |s| && r == s[..|r|]
    ensures NUL !in r
    ensures |r| < |s| ==> s[|r|] == NUL
  {
    if |s| == 0 || s[0] == NUL then "" else [s[0]] + CStr(s[1..])
  }

  lemma {:induction false} CStrOfPlain(s: string)
    requires NUL !in s
    ensures CStr(s) == s
  {
    if |s| > 0 {
      CStrOfPlain(s[1..]);
    }
  }

  /**
   * The character a C pointer sees at offset `i` of a `std::string`: the
   * string's own character, or the terminating NUL at (and, for the
   * purposes of this model, after) its end.
   */
  function At(s: string, i: nat): char
  {
    if i < |s| then s[i] else NUL
  }

  /** Integer division as C++ defines it: truncation toward zero. */
  function TDiv(a: int, b: int): (q: int)
    requires b > 0
    ensures a >= 0 ==> q == a / b
    ensures a < 0 ==> q == -((-a) / b)
  {
    if a >= 0 then a / b else -((-a) / b)
  }

  /** The remainder that goes with TDiv: it has the sign of `a`. */
  function TMod(a: int, b: int): (r: int)
    requires b > 0
    ensures a == TDiv(a, b) * b + r
    ensures a >= 0 ==> 0 <= r < b
    ensures a < 0 ==> -b < r <= 0
  {
    a - TDiv(a, b) * b
  }

  /** The byte a C `char` holds after an `int` is stored into it. */
  function ByteChar(x: int): (c: char)
    ensures 0 <= x < 256 ==> c as int == x
    ensures (c as int) < 256
  {
    (x % 256) as char
  }

  predicate IsUpper(c: char) { 'A' <= c <= 'Z' }

  /** `std::tolower` in the "C" locale: only 'A'..'Z' change. */
  function LowerChar(c: char): (r: char)
    ensures IsUpper(c) ==> r as int == c as int + 32
    ensures !IsUpper(c) ==> r == c
    ensures !IsUpper(r)
  {
    if IsUpper(c) then (c as int + 32) as char else c
  }

  function ToLower(s: string): (r: string)
    ensures |r| == |s|
    ensures forall i :: 0 <= i < |s| ==> r[i] == LowerChar(s[i])
  {
    if |s| == 0 then "" else [LowerChar(s[0])] + ToLower(s[1..])
  }

  /** Insert-if-absent, the semantics of `std::map::emplace`. */
  function Emplace<K, V>(m: map<K, V>, k: K, v: V): (r: map<K, V>)
    ensures k in r
    ensures k in m ==> r == m
    ensures k !in m ==> r[k] == v && r.Keys == m.Keys + {k}
    ensures forall x :: x in m ==> x in r && r[x] == m[x]
  {
    if k in m then m else m[k := v]
  }
}
