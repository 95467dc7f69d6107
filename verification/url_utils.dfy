/**
 * String and URL utilities of the server core: `splitURL`, `isParam`,
 * `parseParam` and `parseQueryString`. The last two are regular expressions
 * in the original; here they are hand-written scanners that accept exactly
 * what the expressions accept.
 */
module UrlUtils {
  import opened Base

  /** `std::string::find(c)`: first index of `c`, or -1 for `npos`. */
  function IndexOf(s: string, c: char): (r: int)
    ensures -1 <= r < |s|
    ensures r >= 0 ==> s[r] == c
    ensures forall j :: 0 <= j < |s| && (r == -1 || j < r) ==> s[j] != c
  {
    if |s| == 0 then -1
    else if s[0] == c then 0
    else
      var k := IndexOf(s[1..], c);
      if k < 0 then -1 else k + 1
  }

  /** `std::string::find_last_of(c)`: last index of `c`, or -1 for `npos`. */
  function LastIndexOf(s: string, c: char): (r: int)
    ensures -1 <= r < |s|
    ensures r >= 0 ==> s[r] == c
    ensures forall j :: r < j < |s| ==> s[j] != c
  {
    if |s| == 0 then -1
    else if s[|s| - 1] == c then |s| - 1
    else LastIndexOf(s[..|s| - 1], c)
  }

  /* ---------------------------------------------------------------- */
  /* splitURL                                                          */
  /* ---------------------------------------------------------------- */

  /** Splits on every '/', keeping empty parts; never returns an empty list. */
  function SplitAll(s: string): (parts: seq<string>)
    ensures |parts| >= 1
    ensures forall i :: 0 <= i < |parts| ==> '/' !in parts[i]
    decreases |s|
  {
    var pos := IndexOf(s, '/');
    if pos < 0 then [s] else [s[..pos]] + SplitAll(s[pos + 1..])
  }

  /**
   * `utils::splitURL`: "/" gives no segment; otherwise one leading '/' is
   * dropped and the rest is split on every '/'.
   */
  function SplitURL(url: string): (parts: seq<string>)
    ensures url == "/" <==> parts == []
    ensures forall i :: 0 <= i < |parts| ==> '/' !in parts[i]
  {
    if url == "/" then []
    else SplitAll(if IndexOf(url, '/') == 0 then url[1..] else url)
  }

  /** Joins parts with '/' between them. */
  function Join(parts: seq<string>): string
  {
    if |parts| == 0 then ""
    else if |parts| == 1 then parts[0]
    else parts[0] + "/" + Join(parts[1..])
  }

  lemma JoinCons(head: string, rest: seq<string>)
    requires |rest| >= 1
    ensures Join([head] + rest) == head + "/" + Join(rest)
  {
    assert ([head] + rest)[1..] == rest;
  }

  lemma {:induction false} JoinSplitAll(s: string)
    ensures Join(SplitAll(s)) == s
    decreases |s|
  {
    var pos := IndexOf(s, '/');
    if pos < 0 {
      assert SplitAll(s) == [s];
    } else {
      var head, tail := s[..pos], s[pos + 1..];
      var rest := SplitAll(tail);
      JoinSplitAll(tail);
      assert SplitAll(s) == [head] + rest;
      JoinCons(head, rest);
      CutAround(s, pos);
    }
  }

  /** A string is what precedes a '/' in it, the '/', and what follows. */
  lemma CutAround(s: string, pos: nat)
    requires pos < |s| && s[pos] == '/'
    ensures s == s[..pos] + "/" + s[pos + 1..]
  {
  }

  lemma {:induction false} SplitAllJoin(parts: seq<string>)
    requires |parts| >= 1
    requires forall i :: 0 <= i < |parts| ==> '/' !in parts[i]
    ensures SplitAll(Join(parts)) == parts
  {
    if |parts| == 1 {
      SplitAllPlain(parts[0]);
    } else {
      var rest := parts[1..];
      assert Join(parts) == parts[0] + "/" + Join(rest);
      SplitAllCons(parts[0], Join(rest));
      SplitAllJoin(rest);
      assert parts == [parts[0]] + rest;
    }
  }

  /** A string without '/' is one part. */
  lemma SplitAllPlain(a: string)
    requires '/' !in a
    ensures SplitAll(a) == [a]
  {
    assert IndexOf(a, '/') < 0;
  }

  /** A part without '/' followed by '/' splits off first. */
  lemma SplitAllCons(a: string, b: string)
    requires '/' !in a
    ensures SplitAll(a + "/" + b) == [a] + SplitAll(b)
  {
    var s := a + "/" + b;
    IndexOfPastPlain(a, b);
    assert s[..|a|] == a;
    assert s[|a| + 1..] == b;
  }

  lemma {:induction false} IndexOfPastPlain(a: string, b: string)
    requires '/' !in a
    ensures IndexOf(a + "/" + b, '/') == |a|
  {
    if |a| > 0 {
      IndexOfPastPlain(a[1..], b);
      assert (a + "/" + b)[1..] == a[1..] + "/" + b;
    }
  }

  /** Any URL that starts with '/' and is not "/" is "/" + its segments joined. */
  lemma SplitURLRoundTrip(url: string)
    requires |url| > 0 && url[0] == '/' && url != "/"
    ensures "/" + Join(SplitURL(url)) == url
  {
    assert IndexOf(url, '/') == 0;
    JoinSplitAll(url[1..]);
  }

  /** Conversely, a segment list is recovered from the path that joins it. */
  lemma SplitURLOfJoin(segs: seq<string>)
    requires segs != [] && segs != [""]
    requires forall i :: 0 <= i < |segs| ==> '/' !in segs[i]
    ensures SplitURL("/" + Join(segs)) == segs
  {
    var url := "/" + Join(segs);
    if |segs| > 1 {
      assert Join(segs) == segs[0] + "/" + Join(segs[1..]);
    }
    assert url != "/";
    assert IndexOf(url, '/') == 0;
    assert url[1..] == Join(segs);
    SplitAllJoin(segs);
  }

  /* ---------------------------------------------------------------- */
  /* isParam / parseParam                                              */
  /* ---------------------------------------------------------------- */

  /**
   * `utils::isParam`: the first '{' is at index 0 and the last '}' is at the
   * last index (both positions `npos`-aware).
   */
  predicate IsParam(s: string)
  {
    IndexOf(s, '{') == 0 && LastIndexOf(s, '}') == |s| - 1
  }

  /** Exactly the strings that open with '{' and close with '}'. */
  lemma IsParamIff(s: string)
    ensures IsParam(s) <==> |s| >= 2 && s[0] == '{' && s[|s| - 1] == '}'
  {
    if |s| >= 2 && s[0] == '{' && s[|s| - 1] == '}' {
      assert IndexOf(s, '{') == 0;
    }
  }

  lemma IsParamExamples()
    ensures !IsParam("") && !IsParam("{") && !IsParam("a}") && IsParam("{}")
    ensures IsParam("{a:[0-9]{1,3}}") && !IsParam("abc")
  {
    IsParamIff("");
    IsParamIff("{");
    IsParamIff("a}");
    IsParamIff("{}");
    IsParamIff("{a:[0-9]{1,3}}");
    IsParamIff("abc");
  }

  /** `[[:alnum:]]|_` in the parameter-declaration expression. */
  predicate IsWordChar(c: char)
  {
    ('a' <= c <= 'z') || ('A' <= c <= 'Z') || ('0' <= c <= '9') || c == '_'
  }

  /** The characters `\s` matches (so `\S` is everything else). */
  predicate IsSpace(c: char)
  {
    c == ' ' || c == '\t' || c == '\n' || c == '\U{B}' || c == '\U{C}' || c == '\r'
  }

  /** Length of the longest run of word characters starting at `i`. */
  function WordRun(s: string, i: nat): (n: nat)
    requires i <= |s|
    ensures i + n <= |s|
    ensures forall k :: i <= k < i + n ==> IsWordChar(s[k])
    ensures i + n < |s| ==> !IsWordChar(s[i + n])
    decreases |s| - i
  {
    if i == |s| || !IsWordChar(s[i]) then 0 else 1 + WordRun(s, i + 1)
  }

  /** A parsed `{name}` or `{name:re}` declaration; `regex` is "" for `{name}`. */
  datatype ParamDecl = ParamDecl(name: string, regex: string)

  predicate WellFormedDecl(d: ParamDecl)
  {
    && |d.name| > 0
    && (forall k :: 0 <= k < |d.name| ==> IsWordChar(d.name[k]))
    && (forall k :: 0 <= k < |d.regex| ==> !IsSpace(d.regex[k]) && d.regex[k] != NUL)
  }

  /** The declaration's text: the inverse of ParseParamText. */
  function RenderParam(d: ParamDecl): string
  {
    "{" + d.name + (if d.regex == "" then "" else ":" + d.regex) + "}"
  }

  /**
   * The expression `^{(?<name>([[:alnum:]]|_)+)(:(?<regex>\S+))?}$`, applied
   * (as `regex::execute` does) to the C-string view of the text. `$` also
   * matches before one final newline.
   */
  function ParseParamText(s: string): Option<ParamDecl>
  {
    DeclOf(Anchored(CStr(s)))
  }

  /** The subject with the one final newline that `$` may stand before removed. */
  function Anchored(t: string): (u: string)
    ensures |u| <= |t| && u == t[..|u|]
  {
    if |t| > 0 && t[|t| - 1] == '\n' then t[..|t| - 1] else t
  }

  predicate NoSpace(s: string)
  {
    forall k :: 0 <= k < |s| ==> !IsSpace(s[k])
  }

  /** The whole-subject match of the declaration expression. */
  function DeclOf(u: string): Option<ParamDecl>
  {
    if |u| < 2 || u[0] != '{' || u[|u| - 1] != '}' then None
    else
      var n := WordRun(u, 1);
      var k := 1 + n;
      if n == 0 then None
      else if k == |u| - 1 then Some(ParamDecl(u[1..k], ""))
      else if u[k] == ':' && k + 1 < |u| - 1 && NoSpace(u[k + 1..|u| - 1]) then
        Some(ParamDecl(u[1..k], u[k + 1..|u| - 1]))
      else None
  }

  /** What the expression accepts is a well-formed declaration spelt exactly as the subject. */
  lemma DeclOfSound(u: string)
    requires NUL !in u
    ensures DeclOf(u).Some? ==> WellFormedDecl(DeclOf(u).value)
    ensures DeclOf(u).Some? ==> RenderParam(DeclOf(u).value) == u
  {
    if DeclOf(u).Some? {
      var d := DeclOf(u).value;
      var k := 1 + WordRun(u, 1);
      assert d.name == u[1..k];
      if d.regex == "" {
        assert u == "{" + u[1..k] + "}";
      } else {
        assert d.regex == u[k + 1..|u| - 1];
        forall j | 0 <= j < |d.regex| ensures !IsSpace(d.regex[j]) && d.regex[j] != NUL {
          assert d.regex[j] == u[k + 1 + j];
        }
        assert u == "{" + u[1..k] + ":" + u[k + 1..|u| - 1] + "}";
      }
    }
  }

  lemma ParseParamTextSound(s: string)
    ensures ParseParamText(s).Some? ==> WellFormedDecl(ParseParamText(s).value)
    ensures ParseParamText(s).Some? ==> RenderParam(ParseParamText(s).value) == Anchored(CStr(s))
  {
    var u := Anchored(CStr(s));
    assert NUL !in u by {
      forall j | 0 <= j < |u| ensures u[j] != NUL {
        assert u[j] == CStr(s)[j];
      }
    }
    DeclOfSound(u);
  }

  /** The characters of a rendered declaration, position by position. */
  lemma RenderParamShape(d: ParamDecl)
    requires WellFormedDecl(d)
    ensures var t := RenderParam(d);
      && NUL !in t
      && |t| >= 2 + |d.name| && t[0] == '{' && t[|t| - 1] == '}'
      && t[1..1 + |d.name|] == d.name
      && (d.regex == "" ==> |t| == 2 + |d.name|)
      && (d.regex != "" ==> t[1 + |d.name|] == ':' && t[2 + |d.name|..|t| - 1] == d.regex)
  {
    var t := RenderParam(d);
    var m := |d.name|;
    if d.regex == "" {
      assert t == "{" + d.name + "}";
    } else {
      assert t == "{" + d.name + ":" + d.regex + "}";
      assert t[2 + m..|t| - 1] == d.regex;
    }
    assert t[1..1 + m] == d.name;
    forall j | 0 <= j < |t| ensures t[j] != NUL {
      if 1 <= j < 1 + m {
        assert t[j] == d.name[j - 1];
      } else if d.regex != "" && 2 + m <= j < |t| - 1 {
        assert t[j] == d.regex[j - 2 - m];
      }
    }
  }

  /** Every well-formed declaration is read back from its own text. */
  lemma ParseParamTextRoundTrip(d: ParamDecl)
    requires WellFormedDecl(d)
    ensures ParseParamText(RenderParam(d)) == Some(d)
  {
    var t := RenderParam(d);
    RenderParamShape(d);
    CStrOfPlain(t);
    assert Anchored(t) == t;
    WordRunOfName(t, d.name);
    DeclOfShaped(t, d);
  }

  /** A subject laid out as a declaration's text matches as that declaration. */
  lemma DeclOfShaped(u: string, d: ParamDecl)
    requires |d.name| > 0 && NoSpace(d.regex)
    requires |u| >= 2 + |d.name| && u[0] == '{' && u[|u| - 1] == '}'
    requires u[1..1 + |d.name|] == d.name && WordRun(u, 1) == |d.name|
    requires d.regex == "" ==> |u| == 2 + |d.name|
    requires d.regex != "" ==> u[1 + |d.name|] == ':' && u[2 + |d.name|..|u| - 1] == d.regex
    ensures DeclOf(u) == Some(d)
  {
  }

  lemma WordRunOfName(t: string, name: string)
    requires |t| >= 2 + |name| && t[1..1 + |name|] == name
    requires forall k :: 0 <= k < |name| ==> IsWordChar(name[k])
    requires !IsWordChar(t[1 + |name|])
    ensures WordRun(t, 1) == |name|
  {
    assert forall k :: 1 <= k < 1 + |name| ==> t[k] == name[k - 1];
  }

  /** The default pattern used for `{name}`. */
  const DefaultPattern: string := "^.*$"

  /** A parameter node's runtime data: its name and its anchored pattern. */
  datatype ParamSpec = ParamSpec(name: string, pattern: string)

  /**
   * `utils::parseParam`: the declaration's name, and the pattern `^re$`
   * (`^.*$` when no expression is given). Fails when the declaration is
   * malformed or its pattern does not compile.
   */
  function ParseParam(s: string, compiles: string -> bool): (r: Option<ParamSpec>)
    ensures r.Some? <==> (ParseParamText(s).Some? &&
      (ParseParamText(s).value.regex == "" || compiles("^" + ParseParamText(s).value.regex + "$")))
    ensures r.Some? ==> r.value.name == ParseParamText(s).value.name
    ensures r.Some? && ParseParamText(s).value.regex == "" ==> r.value.pattern == DefaultPattern
    ensures r.Some? && ParseParamText(s).value.regex != "" ==>
      r.value.pattern == "^" + ParseParamText(s).value.regex + "$"
  {
    match ParseParamText(s)
    case None => None
    case Some(d) =>
      if d.regex == "" then Some(ParamSpec(d.name, DefaultPattern))
      else
        var pattern := "^" + d.regex + "$";
        if compiles(pattern) then Some(ParamSpec(d.name, pattern)) else None
  }

  /** `{name}` declares a parameter matching any segment. */
  lemma ParseParamDefaultExample(compiles: string -> bool)
    ensures ParseParam("{name}", compiles) == Some(ParamSpec("name", "^.*$"))
  {
    var d := ParamDecl("name", "");
    assert RenderParam(d) == "{name}";
    assert WellFormedDecl(d);
    ParseParamTextRoundTrip(d);
  }

  /**
   * A rendered declaration yields its own name, and `^re$` when its pattern
   * compiles (`^.*$` when it has none).
   */
  lemma ParseParamOfRendered(d: ParamDecl, compiles: string -> bool)
    requires WellFormedDecl(d)
    ensures d.regex == "" ==> ParseParam(RenderParam(d), compiles) == Some(ParamSpec(d.name, DefaultPattern))
    ensures d.regex != "" && compiles("^" + d.regex + "$") ==>
      ParseParam(RenderParam(d), compiles) == Some(ParamSpec(d.name, "^" + d.regex + "$"))
    ensures d.regex != "" && !compiles("^" + d.regex + "$") ==> ParseParam(RenderParam(d), compiles) == None
  {
    ParseParamTextRoundTrip(d);
  }

  /** A space in the name, an empty expression and an empty name are all refused. */
  lemma ParseParamRejectsExamples(compiles: string -> bool)
    ensures ParseParam("{a b}", compiles) == None
    ensures ParseParam("{a:}", compiles) == None
    ensures ParseParam("{}", compiles) == None
  {
    RefusesSpacedName(compiles);
    RefusesEmptyRegex(compiles);
    RefusesEmptyName(compiles);
  }

  lemma RefusesSpacedName(compiles: string -> bool)
    ensures ParseParam("{a b}", compiles) == None
  {
    assert WordRun("{a b}", 1) == 1;
    RefusedText("{a b}");
  }

  lemma RefusesEmptyRegex(compiles: string -> bool)
    ensures ParseParam("{a:}", compiles) == None
  {
    assert WordRun("{a:}", 1) == 1;
    RefusedText("{a:}");
  }

  lemma RefusesEmptyName(compiles: string -> bool)
    ensures ParseParam("{}", compiles) == None
  {
    assert WordRun("{}", 1) == 0;
    RefusedText("{}");
  }

  /** A NUL-free text ending in '}' that the expression refuses does not parse. */
  lemma RefusedText(s: string)
    requires NUL !in s && |s| > 0 && s[|s| - 1] == '}'
    requires DeclOf(s) == None
    ensures ParseParamText(s) == None
  {
    CStrOfPlain(s);
  }

  /* ---------------------------------------------------------------- */
  /* parseQueryString                                                  */
  /* ---------------------------------------------------------------- */

  /** First index `j >= i` holding `c`, or -1. */
  function IndexFrom(s: string, c: char, i: nat): (r: int)
    ensures r == -1 || i <= r < |s|
    ensures r >= 0 ==> s[r] == c && forall k :: i <= k < r ==> s[k] != c
    ensures r == -1 ==> forall k :: i <= k < |s| ==> s[k] != c
    decreases |s| - i
  {
    if i >= |s| then -1 else if s[i] == c then i else IndexFrom(s, c, i + 1)
  }

  /** End of a value that starts at `i`: the next '&' or the end of input. */
  function ValueEnd(s: string, i: nat): (v: nat)
    ensures v >= i && (i <= |s| ==> v <= |s|)
    ensures v < |s| ==> s[v] == '&'
    ensures forall k :: i <= k < v && k < |s| ==> s[k] != '&'
  {
    var a := IndexFrom(s, '&', i);
    if a < 0 then (if i <= |s| then |s| else i) else a
  }

  /**
   * All successive non-overlapping matches, from offset `i`, of
   * `(\?|\&)(?<name>[^=]+)\=(?<value>[^&]*)`: a separator, then a non-empty
   * name running to the first '=', then a value running to the next '&'.
   */
  function Scan(s: string, i: nat): (es: seq<(string, string)>)
    ensures forall k :: 0 <= k < |es| ==> |es[k].0| > 0 && '=' !in es[k].0 && '&' !in es[k].1
    decreases |s| - i
  {
    if i >= |s| then []
    else
      var m := Entry(s, i);
      if m.Some? then [m.value.0] + Scan(s, m.value.1) else Scan(s, i + 1)
  }

  /** The match that starts at `i`, if any, and the offset just past it. */
  function Entry(s: string, i: nat): (m: Option<((string, string), nat)>)
    requires i < |s|
    ensures m.Some? ==> m.value.1 > i && |m.value.0.0| > 0 && '=' !in m.value.0.0 && '&' !in m.value.0.1
  {
    if s[i] == '?' || s[i] == '&' then
      var q := IndexFrom(s, '=', i + 1);
      if q > i + 1 then
        var v := ValueEnd(s, q + 1);
        NoneInSlice(s, i + 1, q, '=');
        NoneInSlice(s, q + 1, v, '&');
        Some(((s[i + 1..q], s[q + 1..v]), v))
      else None
    else None
  }

  lemma NoneInSlice(s: string, a: nat, b: nat, c: char)
    requires a <= b <= |s|
    requires forall k :: a <= k < b ==> s[k] != c
    ensures c !in s[a..b]
  {
    forall j | 0 <= j < b - a ensures s[a..b][j] != c {
      assert s[a..b][j] == s[a + j];
    }
  }

  /** The names of a list of entries. */
  function Names(es: seq<(string, string)>): set<string>
  {
    if es == [] then {} else {es[0].0} + Names(es[1..])
  }

  /** The value of the first entry with name `key`. */
  function FirstValue(es: seq<(string, string)>, key: string): string
    requires key in Names(es)
  {
    if es[0].0 == key then es[0].1 else FirstValue(es[1..], key)
  }

  /** Folds entries into a map in order, keeping the first value per key. */
  function Collect(dict: StrMap, es: seq<(string, string)>): (r: StrMap)
    ensures r.Keys == dict.Keys + Names(es)
    ensures forall key :: key in dict ==> r[key] == dict[key]
    ensures forall key :: key !in dict && key in Names(es) ==> r[key] == FirstValue(es, key)
    decreases |es|
  {
    if es == [] then dict
    else Collect(Emplace(dict, es[0].0, es[0].1), es[1..])
  }

  /**
   * `utils::parseQueryString`: adds every match to `dict` (insert-if-absent)
   * and reports whether there was at least one match.
   */
  function ParseQueryString(query: string, dict: StrMap): (r: (bool, StrMap))
    ensures r.0 <==> |Scan(CStr(query), 0)| > 0
    ensures !r.0 ==> r.1 == dict
    ensures dict.Keys <= r.1.Keys
  {
    var es := Scan(CStr(query), 0);
    (|es| > 0, Collect(dict, es))
  }

  /** A query string built from entries: '?' before the first, '&' before the rest. */
  function EncodeQuery(es: seq<(string, string)>, first: bool): string
  {
    if es == [] then ""
    else [if first then '?' else '&'] + es[0].0 + "=" + es[0].1 + EncodeQuery(es[1..], false)
  }

  /** What an entry may hold so that the expression reads it back. */
  predicate Encodable(e: (string, string))
  {
    |e.0| > 0 && '=' !in e.0 && NUL !in e.0 && '&' !in e.1 && NUL !in e.1
  }

  /** Scanning an encoded query string returns exactly the encoded entries. */
  lemma {:induction false} ScanEncode(pre: string, es: seq<(string, string)>, first: bool)
    requires forall k :: 0 <= k < |es| ==> Encodable(es[k])
    ensures Scan(pre + EncodeQuery(es, first), |pre|) == es
    decreases |es|
  {
    if es != [] {
      var e := es[0];
      var rest := EncodeQuery(es[1..], false);
      var sep: char := if first then '?' else '&';
      var pre' := pre + [sep] + e.0 + "=" + e.1;
      EncodeStep(pre, es, first);
      assert es[1..] != [] ==> rest[0] == '&';
      ScanOneEntry(pre, sep, e, rest);
      ScanEncode(pre', es[1..], false);
      assert es == [e] + es[1..];
    }
  }

  lemma EncodeStep(pre: string, es: seq<(string, string)>, first: bool)
    requires es != []
    ensures pre + EncodeQuery(es, first)
      == (pre + [if first then '?' else '&'] + es[0].0 + "=" + es[0].1) + EncodeQuery(es[1..], false)
  {
  }

  /** One encoded entry is read as one match, and the scan resumes at its end. */
  lemma ScanOneEntry(pre: string, sep: char, e: (string, string), rest: string)
    requires sep == '?' || sep == '&'
    requires Encodable(e)
    requires rest == "" || rest[0] == '&'
    ensures var pre' := pre + [sep] + e.0 + "=" + e.1;
      Scan(pre' + rest, |pre|) == [e] + Scan(pre' + rest, |pre'|)
  {
    var pre' := pre + [sep] + e.0 + "=" + e.1;
    var s := pre' + rest;
    var i := |pre|;
    var q := i + 1 + |e.0|;
    var v := q + 1 + |e.1|;
    EntryLayout(pre, sep, e, rest);
    NotInSlice(s, i + 1, q, '=');
    NotInSlice(s, q + 1, v, '&');
    ScanAt(s, i, q, v);
  }

  /** Where the parts of one encoded entry sit in the string. */
  lemma EntryLayout(pre: string, sep: char, e: (string, string), rest: string)
    ensures var s := pre + [sep] + e.0 + "=" + e.1 + rest;
      var i := |pre|;
      var q := i + 1 + |e.0|;
      var v := q + 1 + |e.1|;
      && |s| == v + |rest| && |pre + [sep] + e.0 + "=" + e.1| == v
      && s[i] == sep && s[i + 1..q] == e.0 && s[q] == '=' && s[q + 1..v] == e.1
      && (v < |s| ==> s[v] == rest[0])
  {
  }

  lemma NotInSlice(s: string, a: nat, b: nat, c: char)
    requires a <= b <= |s| && c !in s[a..b]
    ensures forall k :: a <= k < b ==> s[k] != c
  {
    forall k | a <= k < b ensures s[k] != c {
      assert s[k] == s[a..b][k - a];
    }
  }

  /** A separator, a name up to the first '=', and a value up to the next '&' make one match. */
  lemma ScanAt(s: string, i: nat, q: nat, v: nat)
    requires i + 1 < q < v <= |s| + 1 && q < |s|
    requires s[i] == '?' || s[i] == '&'
    requires s[q] == '=' && forall k :: i + 1 <= k < q ==> s[k] != '='
    requires v <= |s| && (v < |s| ==> s[v] == '&')
    requires forall k :: q + 1 <= k < v ==> s[k] != '&'
    ensures Scan(s, i) == [(s[i + 1..q], s[q + 1..v])] + Scan(s, v)
  {
    EntryAt(s, i, q, v);
  }

  lemma EntryAt(s: string, i: nat, q: nat, v: nat)
    requires i + 1 < q < v <= |s| + 1 && q < |s|
    requires s[i] == '?' || s[i] == '&'
    requires s[q] == '=' && forall k :: i + 1 <= k < q ==> s[k] != '='
    requires v <= |s| && (v < |s| ==> s[v] == '&')
    requires forall k :: q + 1 <= k < v ==> s[k] != '&'
    ensures Entry(s, i) == Some(((s[i + 1..q], s[q + 1..v]), v))
  {
    IndexFromIs(s, '=', i + 1, q);
    ValueEndIs(s, q + 1, v);
  }

  lemma IndexFromIs(s: string, c: char, i: nat, q: nat)
    requires i <= q < |s| && s[q] == c
    requires forall k :: i <= k < q ==> s[k] != c
    ensures IndexFrom(s, c, i) == q
    decreases q - i
  {
    if i < q {
      IndexFromIs(s, c, i + 1, q);
    }
  }

  lemma ValueEndIs(s: string, i: nat, v: nat)
    requires i <= v <= |s|
    requires v < |s| ==> s[v] == '&'
    requires forall k :: i <= k < v ==> s[k] != '&'
    ensures ValueEnd(s, i) == v
  {
    if v < |s| {
      IndexFromIs(s, '&', i, v);
    } else {
      var a := IndexFrom(s, '&', i);
      assert a == -1;
    }
  }

  /** An encoded query string parses back to its entries, and succeeds iff there is one. */
  lemma QueryRoundTrip(es: seq<(string, string)>)
    requires forall k :: 0 <= k < |es| ==> Encodable(es[k])
    ensures Scan(CStr(EncodeQuery(es, true)), 0) == es
    ensures ParseQueryString(EncodeQuery(es, true), map[]).0 <==> es != []
    ensures ParseQueryString(EncodeQuery(es, true), map[]).1.Keys == Names(es)
  {
    ScanOfEncoded(es);
  }

  lemma ScanOfEncoded(es: seq<(string, string)>)
    requires forall k :: 0 <= k < |es| ==> Encodable(es[k])
    ensures Scan(CStr(EncodeQuery(es, true)), 0) == es
  {
    var t := EncodeQuery(es, true);
    PlainEncode(es, true);
    CStrOfPlain(t);
    ScanEncode("", es, true);
    assert "" + t == t;
  }

  lemma {:induction false} PlainEncode(es: seq<(string, string)>, first: bool)
    requires forall k :: 0 <= k < |es| ==> Encodable(es[k])
    ensures NUL !in EncodeQuery(es, first)
  {
    if es != [] {
      PlainEncode(es[1..], false);
      var e := es[0];
      var t := [if first then '?' else '&'] + e.0 + "=" + e.1 + EncodeQuery(es[1..], false);
      forall k | 0 <= k < |t| ensures t[k] != NUL {
        if 1 <= k < 1 + |e.0| {
          assert t[k] == e.0[k - 1];
        } else if 2 + |e.0| <= k < 2 + |e.0| + |e.1| {
          assert t[k] == e.1[k - 2 - |e.0|];
        } else if k >= 2 + |e.0| + |e.1| {
          assert t[k] == EncodeQuery(es[1..], false)[k - 2 - |e.0| - |e.1|];
        }
      }
    }
  }

  /* ---------------------------------------------------------------- */
  /* The library's own splitting cases                                 */
  /* ---------------------------------------------------------------- */

  /** Plain segments and the root path. */
  lemma SplitURLExamples()
    ensures SplitURL("/a/b/c") == ["a", "b", "c"]
    ensures SplitURL("/") == []
  {
    SplitURLThree("a", "b", "c");
    assert "/a/b/c" == "/" + "a" + "/" + "b" + "/" + "c";
  }

  lemma SplitURLThree(a: string, b: string, c: string)
    requires a != "" && '/' !in a && '/' !in b && '/' !in c
    ensures SplitURL("/" + a + "/" + b + "/" + c) == [a, b, c]
  {
    var p := [a, b, c];
    JoinThree(a, b, c);
    assert forall i :: 0 <= i < |p| ==> '/' !in p[i];
    SplitURLOfJoin(p);
  }

  lemma JoinThree(a: string, b: string, c: string)
    ensures "/" + a + "/" + b + "/" + c == "/" + Join([a, b, c])
  {
    var p := [a, b, c];
    assert p[1..][1..] == [c];
    assert Join(p[1..]) == b + "/" + c;
    assert Join(p) == a + "/" + (b + "/" + c);
  }
}
