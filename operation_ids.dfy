/** `generate_operation_id`: a verb prefix followed by the Pascal-cased
    segments of the path template. The Pascal casing is a library call and is
    a parameter here. */
module OperationIds {
  import opened OrderedMaps

  /** The prefix chosen by the HTTP verb. */
  function VerbPrefix(verb: string): string
  {
    if verb == "get" then "get"
    else if verb == "post" then "create"
    else if verb == "put" then "update"
    else if verb == "delete" then "delete"
    else ""
  }

  /** The characters of the delimiter class `[/ ]`. */
  predicate IsDelimiter(c: char)
  {
    c == '/' || c == ' '
  }

  predicate NoDelimiter(s: string)
  {
    forall i :: 0 <= i < |s| ==> !IsDelimiter(s[i])
  }

  /** The index of the first delimiter, or `|s|` when there is none. */
  function FirstDelimiter(s: string): (i: nat)
    ensures i <= |s| && NoDelimiter(s[..i])
    ensures i < |s| ==> IsDelimiter(s[i])
  {
    if s == [] || IsDelimiter(s[0]) then 0
    else 1 + FirstDelimiter(s[1..])
  }

  /** What follows a maximal run of delimiters at the front of `s`. */
  function SkipDelimiters(s: string): (r: string)
    ensures |r| <= |s| && r == s[|s| - |r|..]
    ensures r == [] || !IsDelimiter(r[0])
    ensures s != [] && IsDelimiter(s[0]) ==> |r| < |s|
  {
    if s != [] && IsDelimiter(s[0]) then SkipDelimiters(s[1..]) else s
  }

  /** Splitting on the regular expression `[/ ]+`: the pieces between maximal
      runs of delimiters, including an empty first piece when `s` starts with
      one and an empty last piece when it ends with one. */
  function Split(s: string): seq<string>
    decreases |s|
  {
    var i := FirstDelimiter(s);
    if i == |s| then [s] else [s[..i]] + Split(SkipDelimiters(s[i..]))
  }

  function Concat(ss: seq<string>): string
  {
    if ss == [] then [] else ss[0] + Concat(ss[1..])
  }

  /** `s` with every delimiter character dropped: the reference the pieces of
      `Split` are checked against. */
  function DropDelimiters(s: string): string
  {
    if s == [] then []
    else (if IsDelimiter(s[0]) then [] else [s[0]]) + DropDelimiters(s[1..])
  }

  lemma {:induction false} DropDelimitersAppend(a: string, b: string)
    ensures DropDelimiters(a + b) == DropDelimiters(a) + DropDelimiters(b)
  {
    if a != [] {
      assert (a + b)[0] == a[0];
      assert (a + b)[1..] == a[1..] + b;
      DropDelimitersAppend(a[1..], b);
    } else {
      assert a + b == b;
    }
  }

  lemma {:induction false} DropDelimitersNone(s: string)
    requires NoDelimiter(s)
    ensures DropDelimiters(s) == s
  {
    if s != [] {
      DropDelimitersNone(s[1..]);
    }
  }

  /** The pieces hold no delimiter and the inner ones are not empty. */
  predicate WellSplit(pieces: seq<string>)
  {
    (forall j :: 0 <= j < |pieces| ==> NoDelimiter(pieces[j])) &&
    (forall j :: 0 < j < |pieces| - 1 ==> pieces[j] != [])
  }

  lemma WellSplitCons(p: string, tail: seq<string>)
    requires NoDelimiter(p) && WellSplit(tail)
    requires |tail| > 1 ==> tail[0] != []
    ensures WellSplit([p] + tail)
  {
    var pieces := [p] + tail;
    forall j | 0 <= j < |pieces|
      ensures NoDelimiter(pieces[j])
    {
      if j > 0 {
        assert pieces[j] == tail[j - 1];
      }
    }
  }

  lemma {:induction false} SplitWell(s: string)
    ensures WellSplit(Split(s))
    decreases |s|
  {
    var i := FirstDelimiter(s);
    if i == |s| {
      assert s[..i] == s;
    } else {
      var rest := SkipDelimiters(s[i..]);
      SplitWell(rest);
      var tail := Split(rest);
      assert Split(s) == [s[..i]] + tail;
      if |tail| > 1 {
        assert FirstDelimiter(rest) < |rest|;
      }
      WellSplitCons(s[..i], tail);
    }
  }

  /** Skipping leading delimiters drops nothing but delimiters. */
  lemma {:induction false} DropDelimitersSkip(t: string)
    ensures DropDelimiters(SkipDelimiters(t)) == DropDelimiters(t)
  {
    if t != [] && IsDelimiter(t[0]) {
      DropDelimitersSkip(t[1..]);
      assert DropDelimiters(t) == [] + DropDelimiters(t[1..]);
    }
  }

  /** Dropping the delimiters of `s` keeps its first piece and what follows
      the first run of delimiters. */
  lemma DropDelimitersAtRun(s: string, i: nat)
    requires i == FirstDelimiter(s) && i < |s|
    ensures DropDelimiters(s) == s[..i] + DropDelimiters(SkipDelimiters(s[i..]))
  {
    var a, t := s[..i], s[i..];
    assert s == a + t;
    DropDelimitersAppend(a, t);
    DropDelimitersNone(a);
    DropDelimitersSkip(t);
  }

  /** One step of `Split` at the first delimiter. */
  lemma SplitStep(s: string, i: nat)
    requires i == FirstDelimiter(s) && i < |s|
    ensures Split(s) == [s[..i]] + Split(SkipDelimiters(s[i..]))
  {
  }

  /** Read in order, the pieces spell the input with its delimiters dropped. */
  lemma {:induction false} SplitConcat(s: string)
    ensures Concat(Split(s)) == DropDelimiters(s)
    decreases |s|
  {
    var i := FirstDelimiter(s);
    if i == |s| {
      assert s[..i] == s;
      DropDelimitersNone(s);
      assert Split(s) == [s];
      assert Concat([s]) == s + Concat([]);
    } else {
      var rest := SkipDelimiters(s[i..]);
      SplitConcat(rest);
      var tail := Split(rest);
      var pieces := [s[..i]] + tail;
      assert Split(s) == pieces;
      assert pieces[1..] == tail;
      assert Concat(pieces) == s[..i] + Concat(tail);
      DropDelimitersAtRun(s, i);
    }
  }

  /** The first delimiter is where the delimiter-free prefix stops. */
  lemma {:induction false} FirstDelimiterAt(s: string, i: nat)
    requires i <= |s| && NoDelimiter(s[..i])
    requires i < |s| ==> IsDelimiter(s[i])
    ensures FirstDelimiter(s) == i
  {
    if i > 0 {
      assert s[0] == s[..i][0];
      assert s[1..][..i - 1] == s[..i][1..];
      FirstDelimiterAt(s[1..], i - 1);
    }
  }

  /** A run of delimiters is skipped up to the next non-delimiter. */
  lemma {:induction false} SkipDelimitersOf(d: string, b: string)
    requires forall k :: 0 <= k < |d| ==> IsDelimiter(d[k])
    requires b == [] || !IsDelimiter(b[0])
    ensures SkipDelimiters(d + b) == b
  {
    if d == [] {
      assert d + b == b;
    } else {
      assert (d + b)[0] == d[0];
      assert (d + b)[1..] == d[1..] + b;
      SkipDelimitersOf(d[1..], b);
    }
  }

  /** A delimiter-free string is a single piece. */
  lemma SplitSingle(a: string)
    requires NoDelimiter(a)
    ensures Split(a) == [a]
  {
    FirstDelimiterAt(a, |a|);
    assert a[..|a|] == a;
  }

  /** A piece, a run of delimiters, then the rest: the piece comes first. */
  lemma SplitJoin(a: string, d: string, b: string)
    requires NoDelimiter(a)
    requires d != [] && forall k :: 0 <= k < |d| ==> IsDelimiter(d[k])
    requires b == [] || !IsDelimiter(b[0])
    ensures Split(a + (d + b)) == [a] + Split(b)
  {
    var s := a + (d + b);
    assert s[..|a|] == a;
    assert s[|a|..] == d + b;
    assert s[|a|] == d[0];
    FirstDelimiterAt(s, |a|);
    SkipDelimitersOf(d, b);
    SplitStep(s, |a|);
  }

  /** ASCII word characters, the class `\w` as used on path templates. */
  predicate IsWordChar(c: char)
  {
    ('a' <= c <= 'z') || ('A' <= c <= 'Z') || ('0' <= c <= '9') || c == '_'
  }

  predicate AllWordChars(w: string)
  {
    forall i :: 0 <= i < |w| ==> IsWordChar(w[i])
  }

  /** The longest prefix of `s` made of word characters. */
  function WordRun(s: string): (w: string)
    ensures |w| <= |s| && w == s[..|w|]
    ensures AllWordChars(w)
    ensures |w| < |s| ==> !IsWordChar(s[|w|])
  {
    if s != [] && IsWordChar(s[0]) then [s[0]] + WordRun(s[1..]) else []
  }

  /** The regular expression `\{(\w+)}` matches at index `i` of `s` with `w`
      as its group. */
  predicate MatchAt(s: string, i: nat, w: string)
  {
    i + |w| + 2 <= |s| && w != [] && AllWordChars(w) &&
    s[i] == '{' && s[i + 1..i + 1 + |w|] == w && s[i + 1 + |w|] == '}'
  }

  /** The group of the leftmost match of `\{(\w+)}`, if any. */
  function Capture(s: string): Option<string>
  {
    if s == [] then None
    else if s[0] == '{' && |WordRun(s[1..])| > 0 && |WordRun(s[1..])| + 1 < |s|
      && s[|WordRun(s[1..])| + 1] == '}' then Some(WordRun(s[1..]))
    else Capture(s[1..])
  }

  /** A maximal run of word characters is the one `WordRun` finds. */
  lemma {:induction false} WordRunOf(t: string, w: string)
    requires |w| < |t| && w == t[..|w|] && AllWordChars(w)
    requires !IsWordChar(t[|w|])
    ensures WordRun(t) == w
  {
    if w != [] {
      assert t[0] == w[0];
      WordRunOf(t[1..], w[1..]);
    }
  }

  /** A match determines its group: it is the word run after the brace. */
  lemma MatchAtWordRun(s: string, i: nat, w: string)
    requires MatchAt(s, i, w)
    ensures WordRun(s[i + 1..]) == w
  {
    var t := s[i + 1..];
    assert t[..|w|] == w;
    assert t[|w|] == '}';
    WordRunOf(t, w);
  }

  /** What `Capture` tests at the front of `s` is a match at index 0. */
  lemma MatchAtFront(s: string)
    ensures (s != [] && s[0] == '{' && |WordRun(s[1..])| > 0 && |WordRun(s[1..])| + 1 < |s| &&
             s[|WordRun(s[1..])| + 1] == '}') ==> MatchAt(s, 0, WordRun(s[1..]))
  {
    if s != [] {
      var r := WordRun(s[1..]);
      if |r| + 1 < |s| {
        assert s[1..][..|r|] == s[1..1 + |r|];
      }
    }
  }

  /** A match in the tail of `s` is a match in `s`, one index further. */
  lemma MatchShift(s: string, j: nat, v: string)
    requires s != []
    ensures MatchAt(s[1..], j, v) ==> MatchAt(s, j + 1, v)
  {
    if j + |v| + 2 <= |s| - 1 {
      assert s[1..][j + 1..j + 1 + |v|] == s[j + 2..j + 2 + |v|];
    }
  }

  /** `Capture` finds the leftmost match. */
  lemma {:induction false} CaptureFound(s: string, i: nat, w: string)
    requires MatchAt(s, i, w)
    requires forall j: nat, v: string :: j < i ==> !MatchAt(s, j, v)
    ensures Capture(s) == Some(w)
    decreases i
  {
    if i == 0 {
      MatchAtWordRun(s, 0, w);
    } else {
      MatchAtFront(s);
      assert s[1..][i..] == s[i + 1..];
      assert MatchAt(s[1..], i - 1, w);
      forall j: nat, v: string | j < i - 1
        ensures !MatchAt(s[1..], j, v)
      {
        MatchShift(s, j, v);
      }
      CaptureFound(s[1..], i - 1, w);
    }
  }

  /** `Capture` finds nothing where `\{(\w+)}` does not match. */
  lemma {:induction false} CaptureMissing(s: string)
    requires forall j: nat, v: string :: !MatchAt(s, j, v)
    ensures Capture(s) == None
    decreases |s|
  {
    if s != [] {
      MatchAtFront(s);
      forall j: nat, v: string
        ensures !MatchAt(s[1..], j, v)
      {
        MatchShift(s, j, v);
      }
      CaptureMissing(s[1..]);
    }
  }

  /** The token a path piece contributes: the captured word, or the piece. */
  function Token(piece: string): string
  {
    match Capture(piece)
    case Some(w) => w
    case None => piece
  }

  /** A piece holding `{word}` after a brace-free prefix contributes `word`. */
  lemma TokenBraced(a: string, w: string, b: string)
    requires '{' !in a
    requires w != [] && AllWordChars(w)
    ensures Token(a + "{" + w + "}" + b) == w
  {
    var s := a + "{" + w + "}" + b;
    assert s[|a|] == '{';
    assert s[|a| + 1..|a| + 1 + |w|] == w;
    assert s[|a| + 1 + |w|] == '}';
    assert MatchAt(s, |a|, w);
    forall j: nat, v: string | j < |a|
      ensures !MatchAt(s, j, v)
    {
      assert s[j] == a[j];
    }
    CaptureFound(s, |a|, w);
  }

  /** A piece without a brace contributes itself. */
  lemma TokenPlain(piece: string)
    requires '{' !in piece
    ensures Token(piece) == piece
  {
    forall j: nat, v: string
      ensures !MatchAt(piece, j, v)
    {
      if j < |piece| {
        assert piece[j] in piece;
      }
    }
    CaptureMissing(piece);
  }

  /** The tokens of a path template: every piece but the first. */
  function Tokens(url: string): seq<string>
  {
    var pieces := Split(url);
    seq(|pieces| - 1, i requires 0 <= i < |pieces| - 1 => Token(pieces[i + 1]))
  }

  function PascalAll(ts: seq<string>, pascal: string -> string): seq<string>
  {
    seq(|ts|, i requires 0 <= i < |ts| => pascal(ts[i]))
  }

  /** `generate_operation_id(verb, url)`; `pascal` is the Pascal casing. */
  function GenerateOperationId(verb: string, url: string, pascal: string -> string): string
  {
    VerbPrefix(verb) + Concat(PascalAll(Tokens(url), pascal))
  }

  /** The verb decides the prefix; any other verb contributes none. */
  lemma OperationIdPrefix(verb: string, url: string, pascal: string -> string)
    ensures var id := GenerateOperationId(verb, url, pascal);
      var suffix := Concat(PascalAll(Tokens(url), pascal));
      (verb == "get" ==> id == "get" + suffix) &&
      (verb == "post" ==> id == "create" + suffix) &&
      (verb == "put" ==> id == "update" + suffix) &&
      (verb == "delete" ==> id == "delete" + suffix) &&
      (verb !in ["get", "post", "put", "delete"] ==> id == suffix)
  {
  }

  /** A template made of `/`-prefixed segments. */
  function Slashed(segs: seq<string>): string
  {
    if segs == [] then [] else "/" + segs[0] + Slashed(segs[1..])
  }

  predicate Segment(seg: string)
  {
    seg != [] && NoDelimiter(seg)
  }

  lemma SlashedCons(segs: seq<string>)
    requires segs != []
    ensures Slashed(segs) == "/" + (segs[0] + Slashed(segs[1..]))
  {
    assert "/" + segs[0] + Slashed(segs[1..]) == "/" + (segs[0] + Slashed(segs[1..]));
  }

  lemma {:induction false} SplitAfter(a: string, segs: seq<string>)
    requires NoDelimiter(a)
    requires forall k :: 0 <= k < |segs| ==> Segment(segs[k])
    ensures Split(a + Slashed(segs)) == [a] + segs
    decreases |segs|
  {
    if segs == [] {
      assert a + Slashed(segs) == a;
      SplitSingle(a);
    } else {
      SplitAfter(segs[0], segs[1..]);
      SlashedCons(segs);
      SplitAfterCons(a, segs[0], Slashed(segs[1..]), segs[1..]);
      ConsFront(a, segs);
    }
  }

  lemma ConsFront<T>(a: T, xs: seq<T>)
    requires xs != []
    ensures [a, xs[0]] + xs[1..] == [a] + xs
  {
  }

  /** The step of `SplitAfter`: one more segment behind `a`. */
  lemma SplitAfterCons(a: string, seg: string, rest: string, tail: seq<string>)
    requires NoDelimiter(a) && Segment(seg)
    requires Split(seg + rest) == [seg] + tail
    ensures Split(a + ("/" + (seg + rest))) == [a, seg] + tail
  {
    assert (seg + rest)[0] == seg[0];
    SplitSlash(a, seg + rest);
    ConsTwo(a, seg, tail);
  }

  lemma ConsTwo<T>(a: T, b: T, xs: seq<T>)
    ensures [a] + ([b] + xs) == [a, b] + xs
  {
  }

  /** A piece, one slash, then the rest. */
  lemma SplitSlash(a: string, b: string)
    requires NoDelimiter(a)
    requires b == [] || !IsDelimiter(b[0])
    ensures Split(a + ("/" + b)) == [a] + Split(b)
  {
    assert IsDelimiter("/"[0]);
    SplitJoin(a, "/", b);
  }

  function TokenAll(segs: seq<string>): seq<string>
  {
    seq(|segs|, k requires 0 <= k < |segs| => Token(segs[k]))
  }

  /** For a template `/s1/s2/.../sn` the tokens are those of the segments,
      in order, so the id is the verb prefix followed by the cased token of
      each segment. */
  lemma TokensOfSegments(segs: seq<string>)
    requires forall k :: 0 <= k < |segs| ==> Segment(segs[k])
    ensures Tokens(Slashed(segs)) == TokenAll(segs)
  {
    assert "" + Slashed(segs) == Slashed(segs);
    SplitAfter("", segs);
    TokensOfPieces(Slashed(segs), segs);
  }

  lemma TokensOfPieces(url: string, segs: seq<string>)
    requires Split(url) == [""] + segs
    ensures Tokens(url) == TokenAll(segs)
  {
    var pieces := Split(url);
    var ts := Tokens(url);
    forall k | 0 <= k < |segs|
      ensures ts[k] == Token(segs[k])
    {
      assert pieces[k + 1] == segs[k];
    }
  }

  lemma OperationIdOfTokens(verb: string, url: string, pascal: string -> string, ts: seq<string>)
    requires Tokens(url) == ts
    ensures GenerateOperationId(verb, url, pascal) == VerbPrefix(verb) + Concat(PascalAll(ts, pascal))
  {
  }

  /** A two-segment template `/s1/s2` yields the verb prefix and the cased
      tokens of both segments. */
  lemma OperationIdOfTwoSegments(verb: string, s1: string, s2: string, pascal: string -> string)
    requires Segment(s1) && Segment(s2)
    ensures GenerateOperationId(verb, "/" + s1 + "/" + s2, pascal) ==
      VerbPrefix(verb) + pascal(Token(s1)) + pascal(Token(s2))
  {
    var segs := [s1, s2];
    SlashedTwo(s1, s2);
    TokensOfSegments(segs);
    var cased := PascalAll(TokenAll(segs), pascal);
    assert cased == [pascal(Token(s1)), pascal(Token(s2))];
    ConcatTwo(pascal(Token(s1)), pascal(Token(s2)));
    OperationIdOfTokens(verb, Slashed(segs), pascal, TokenAll(segs));
  }

  lemma SlashedTwo(s1: string, s2: string)
    ensures Slashed([s1, s2]) == "/" + s1 + "/" + s2
  {
    var segs := [s1, s2];
    assert segs[1..] == [s2] && segs[1..][1..] == [];
    assert Slashed([s2]) == "/" + s2 + Slashed([]);
    assert Slashed(segs) == "/" + s1 + Slashed([s2]);
  }

  lemma ConcatTwo(x: string, y: string)
    ensures Concat([x, y]) == x + y
  {
    var xs := [x, y];
    assert xs[1..] == [y] && xs[1..][1..] == [];
    assert Concat([y]) == y + Concat([]);
  }

  /** A segment `{word}` is a segment whose token is `word`. */
  lemma BracedSegment(param: string)
    requires param != [] && AllWordChars(param)
    ensures Segment("{" + param + "}") && Token("{" + param + "}") == param
  {
    var braced := "{" + param + "}";
    forall k | 0 <= k < |braced|
      ensures !IsDelimiter(braced[k])
    {
      if 0 < k < |braced| - 1 {
        assert braced[k] == param[k - 1];
      }
    }
    assert braced == "" + "{" + param + "}" + "";
    TokenBraced("", param, "");
  }

  /** `GET /resource/{param}` becomes `get` + Pascal(resource) + Pascal(param). */
  lemma OperationIdOfParameter(resource: string, param: string, pascal: string -> string)
    requires Segment(resource) && '{' !in resource
    requires param != [] && AllWordChars(param)
    ensures GenerateOperationId("get", "/" + resource + "/{" + param + "}", pascal) ==
      "get" + pascal(resource) + pascal(param)
  {
    ParameterUrl(resource, param);
    BracedSegment(param);
    TokenPlain(resource);
    OperationIdOfTwoSegments("get", resource, "{" + param + "}", pascal);
  }

  lemma ParameterUrl(resource: string, param: string)
    ensures "/" + resource + "/{" + param + "}" == "/" + resource + "/" + ("{" + param + "}")
  {
  }

  /** A segment with a query template has no `\{(\w+)}` match. */
  lemma QueryTemplateToken(resource: string, query: string)
    requires '{' !in resource && '{' !in query
    ensures Token(resource + "{?" + query + "}") == resource + "{?" + query + "}"
  {
    var seg := resource + "{?" + query + "}";
    forall j: nat, v: string
      ensures !MatchAt(seg, j, v)
    {
      if j < |resource| {
        assert seg[j] == resource[j];
        assert resource[j] in resource;
      } else if j == |resource| {
        assert seg[j + 1] == '?';
      } else if |resource| + 1 < j < |seg| - 1 {
        assert seg[j] == query[j - |resource| - 2];
        assert query[j - |resource| - 2] in query;
      }
    }
    CaptureMissing(seg);
  }

  /** A one-segment template `/seg` yields the verb prefix and the cased
      token of `seg`. */
  lemma OperationIdOfSegment(verb: string, seg: string, pascal: string -> string)
    requires Segment(seg)
    ensures GenerateOperationId(verb, "/" + seg, pascal) == VerbPrefix(verb) + pascal(Token(seg))
  {
    assert [seg][1..] == [];
    assert Slashed([seg]) == "/" + seg + Slashed([]);
    assert "/" + seg == Slashed([seg]);
    TokensOfSegments([seg]);
    OperationIdOfTokens(verb, Slashed([seg]), pascal, TokenAll([seg]));
    assert PascalAll(TokenAll([seg]), pascal) == [pascal(Token(seg))];
    assert [pascal(Token(seg))][1..] == [];
    assert Concat([pascal(Token(seg))]) == pascal(Token(seg)) + Concat([]);
  }

  /** A query template adds no delimiter to a segment. */
  lemma QuerySegment(resource: string, query: string)
    requires Segment(resource) && NoDelimiter(query)
    ensures Segment(resource + "{?" + query + "}")
  {
    var seg := resource + "{?" + query + "}";
    forall k | 0 <= k < |seg|
      ensures !IsDelimiter(seg[k])
    {
      if k < |resource| {
        assert seg[k] == resource[k];
      } else if |resource| + 2 <= k < |seg| - 1 {
        assert seg[k] == query[k - |resource| - 2];
      }
    }
  }

  /** Query templates are still part of the key when the id is generated:
      `{?` does not open a `\{(\w+)}` match, so the whole segment is cased. */
  lemma OperationIdKeepsQueryTemplate(verb: string, resource: string, query: string, pascal: string -> string)
    requires Segment(resource) && '{' !in resource
    requires NoDelimiter(query) && '{' !in query
    ensures GenerateOperationId(verb, "/" + resource + "{?" + query + "}", pascal) ==
      VerbPrefix(verb) + pascal(resource + "{?" + query + "}")
  {
    var seg := resource + "{?" + query + "}";
    QuerySegment(resource, query);
    QueryTemplateToken(resource, query);
    QueryUrl(resource, query);
    OperationIdOfSegment(verb, seg, pascal);
  }

  lemma QueryUrl(resource: string, query: string)
    ensures "/" + resource + "{?" + query + "}" == "/" + (resource + "{?" + query + "}")
  {
  }
}
