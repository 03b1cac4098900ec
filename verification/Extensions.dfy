/** util.go: parsing Sec-WebSocket-Extensions headers, section 9.1 of RFC 6455. */
module Extensions {
  import opened Bytes
  import opened Frames

  type Extension = map<string, string>

  predicate IsSpace(c: char) {
    c == ' ' || c == '\t'
  }

  predicate IsTokenOctet(c: char) {
    '0' <= c <= '9' || 'A' <= c <= 'Z' || 'a' <= c <= 'z' || c in "!#$%&'*+-.^_`|~"
  }

  /** The separators of section 2.2 of RFC 2616, but for the blank and the tab. */
  const SEPARATORS: string := "()<>@,;:\\\"/[]?={}"

  /** A token octet is any printable character of US-ASCII that is not a separator. */
  lemma TokenAlphabet(c: char)
    ensures IsTokenOctet(c) <==> 33 <= c as int <= 126 && c !in SEPARATORS
  {
  }

  // ----- the parser as functions -----

  function SkipSpace(s: string): (r: string)
    ensures |r| <= |s| && (r != "" ==> !IsSpace(r[0]))
  {
    if s != "" && IsSpace(s[0]) then SkipSpace(s[1..]) else s
  }

  function TokenLength(s: string): (n: nat)
    ensures n <= |s| && (forall i :: 0 <= i < n ==> IsTokenOctet(s[i])) && (n < |s| ==> !IsTokenOctet(s[n]))
  {
    if s != "" && IsTokenOctet(s[0]) then 1 + TokenLength(s[1..]) else 0
  }

  function Token(s: string): string {
    s[..TokenLength(s)]
  }

  function AfterToken(s: string): (r: string)
    ensures |Token(s)| + |r| == |s|
  {
    s[TokenLength(s)..]
  }

  datatype Quoted = Unterminated | Quoted(value: string, rest: string)

  /** The rest of a quoted string after its opening quote. */
  function Unquote(s: string): (q: Quoted)
    ensures q.Quoted? ==> |q.rest| < |s|
  {
    if s == "" then Unterminated
    else if s[0] == '"' then Quoted("", s[1..])
    else if s[0] == '\\' then
      if |s| == 1 then Unterminated else Prefixed(s[1], Unquote(s[2..]))
    else Prefixed(s[0], Unquote(s[1..]))
  }

  function Prefixed(c: char, q: Quoted): Quoted {
    if q.Unterminated? then q else q.(value := [c] + q.value)
  }

  function TokenOrQuoted(s: string): (r: (string, string))
    ensures |r.1| <= |s|
  {
    if s == "" || s[0] != '"' then (Token(s), AfterToken(s))
    else
      match Unquote(s[1..])
      case Unterminated => ("", "")
      case Quoted(value, rest) => (value, rest)
  }

  datatype Params = Malformed | Params(ext: Extension, rest: string)

  /** One parameter after its semicolon: its key, its value and what follows. */
  function ParseParam(s: string): (r: Option<(string, string, string)>)
    ensures r.Some? ==> |r.value.2| < |s|
  {
    var s1 := SkipSpace(s);
    var k := Token(s1);
    if k == "" then None
    else
      var s2 := SkipSpace(AfterToken(s1));
      var (v, s3) := if s2 != "" && s2[0] == '=' then TokenOrQuoted(SkipSpace(s2[1..])) else ("", s2);
      var s4 := SkipSpace(s3);
      if s4 != "" && s4[0] != ',' && s4[0] != ';' then None else Some((k, v, s4))
  }

  function ParseParams(s: string, ext: Extension): (r: Params)
    ensures r.Params? ==> |r.rest| <= |s|
    decreases |s|
  {
    var s1 := SkipSpace(s);
    if s1 == "" || s1[0] != ';' then Params(ext, s1)
    else
      match ParseParam(s1[1..])
      case None => Malformed
      case Some((k, v, rest)) => ParseParams(rest, ext[k := v])
  }

  /** One header line. At the first thing that does not parse, what was found before it stands. */
  function ParseLine(s: string): seq<Extension>
    decreases |s|
  {
    var s1 := SkipSpace(s);
    var t := Token(s1);
    if t == "" then []
    else
      match ParseParams(AfterToken(s1), map["" := t])
      case Malformed => []
      case Params(ext, rest) =>
        if rest == "" then [ext]
        else if rest[0] != ',' then []
        else [ext] + ParseLine(rest[1..])
  }

  function ParseLines(lines: seq<string>): seq<Extension> {
    if lines == [] then [] else ParseLine(lines[0]) + ParseLines(lines[1..])
  }

  // ----- the parser as it is written -----

  method SkipSpaceIn(s: string) returns (rest: string)
    ensures rest == SkipSpace(s)
  {
    var i := 0;
    while i < |s|
      invariant i <= |s| && SkipSpace(s[i..]) == SkipSpace(s)
    {
      if !IsSpace(s[i]) {
        break;
      }
      assert s[i..][1..] == s[i + 1..];
      i := i + 1;
    }
    rest := s[i..];
  }

  method NextToken(s: string) returns (token: string, rest: string)
    ensures token == Token(s) && rest == AfterToken(s)
  {
    var i := 0;
    while i < |s|
      invariant i <= |s| && i + TokenLength(s[i..]) == TokenLength(s)
    {
      if !IsTokenOctet(s[i]) {
        break;
      }
      assert s[i..][1..] == s[i + 1..];
      i := i + 1;
    }
    return s[..i], s[i..];
  }

  /** What has been unquoted goes before what is still to be. */
  function Resumed(done: string, q: Quoted): Quoted {
    if q.Unterminated? then q else q.(value := done + q.value)
  }

  lemma ResumedOnce(done: string, c: char, q: Quoted)
    ensures Resumed(done, Prefixed(c, q)) == Resumed(done + [c], q)
  {
    if q.Quoted? {
      assert done + ([c] + q.value) == (done + [c]) + q.value;
    }
  }

  lemma ResumedEnd(done: string, rest: string)
    ensures Resumed(done, Quoted("", rest)) == Quoted(done, rest)
  {
    assert done + "" == done;
  }

  lemma UnquoteStep(t: string, i: nat)
    requires i <= |t|
    ensures i == |t| ==> Unquote(t[i..]) == Unterminated
    ensures i < |t| && t[i] == '"' ==> Unquote(t[i..]) == Quoted("", t[i + 1..])
    ensures i < |t| && t[i] == '\\' ==>
      Unquote(t[i..]) == if i + 1 == |t| then Unterminated else Prefixed(t[i + 1], Unquote(t[i + 2..]))
    ensures i < |t| && t[i] != '"' && t[i] != '\\' ==> Unquote(t[i..]) == Prefixed(t[i], Unquote(t[i + 1..]))
  {
    var s := t[i..];
    if i < |t| {
      assert s[1..] == t[i + 1..];
      assert i + 1 < |t| ==> s[2..] == t[i + 2..];
    }
  }

  lemma Snoc(t: string, i: nat)
    requires i < |t|
    ensures t[..i] + [t[i]] == t[..i + 1]
  {
  }

  method NextTokenOrQuoted(s: string) returns (value: string, rest: string)
    ensures (value, rest) == TokenOrQuoted(s)
  {
    hide Unquote, Prefixed;
    if s == "" || s[0] != '"' {
      value, rest := NextToken(s);
      return;
    }
    var t := s[1..];
    var i := 0;
    assert t[0..] == t;
    while i < |t|
      invariant i <= |t| && Resumed(t[..i], Unquote(t[i..])) == Unquote(t)
    {
      UnquoteStep(t, i);
      if t[i] == '"' {
        ResumedEnd(t[..i], t[i + 1..]);
        return t[..i], t[i + 1..];
      }
      if t[i] == '\\' {
        value, rest := Unescape(t, i);
        return;
      }
      Snoc(t, i);
      ResumedOnce(t[..i], t[i], Unquote(t[i + 1..]));
      i := i + 1;
    }
    UnquoteStep(t, i);
    return "", "";
  }

  /** From the first backslash on, the octets are copied into a buffer one shorter than the string. */
  method Unescape(t: string, start: nat) returns (value: string, rest: string)
    requires start < |t| && t[start] == '\\'
    requires Resumed(t[..start], Unquote(t[start..])) == Unquote(t)
    ensures (value, rest) == match Unquote(t) case Unterminated => ("", "") case Quoted(v, r) => (v, r)
  {
    hide Unquote, Prefixed, Resumed;
    var p := new char[|t| - 1](_ => ' ');
    forall k | 0 <= k < start {
      p[k] := t[k];
    }
    var j := start;
    var escape := true;
    var i := start + 1;
    assert p[..j] == t[..start];
    while i < |t|
      invariant start < i <= |t| && j + (if escape then 1 else 0) <= i && j <= p.Length
      invariant escape ==> t[i - 1] == '\\' && Resumed(p[..j], Unquote(t[i - 1..])) == Unquote(t)
      invariant !escape ==> Resumed(p[..j], Unquote(t[i..])) == Unquote(t) && j < i
    {
      var b := t[i];
      UnquoteStep(t, if escape then i - 1 else i);
      if escape {
        escape := false;
        Append(p, j, b, t[i + 1..]);
        j := j + 1;
      } else if b == '\\' {
        escape := true;
      } else if b == '"' {
        ResumedEnd(p[..j], t[i + 1..]);
        return p[..j], t[i + 1..];
      } else {
        Append(p, j, b, t[i + 1..]);
        j := j + 1;
      }
      i := i + 1;
    }
    UnquoteStep(t, if escape then i - 1 else i);
    ResumedNever(p[..j]);
    return "", "";
  }

  lemma ResumedNever(done: string)
    ensures Resumed(done, Unterminated) == Unterminated
  {
  }

  /** The octet b is the next one of the value, before what is still to be unquoted. */
  method Append(p: array<char>, j: nat, b: char, ghost more: string)
    requires j < p.Length
    modifies p
    ensures p[..j + 1] == old(p[..j]) + [b]
    ensures Resumed(p[..j + 1], Unquote(more)) == Resumed(old(p[..j]), Prefixed(b, Unquote(more)))
  {
    hide Unquote, Prefixed, Resumed;
    ghost var done := p[..j];
    p[j] := b;
    assert p[..j + 1] == done + [b];
    ResumedOnce(done, b, Unquote(more));
  }

  method ParseExtensions(lines: seq<string>) returns (result: seq<Extension>)
    ensures result == ParseLines(lines)
  {
    hide ParseLine;
    result := [];
    var n := 0;
    assert lines[0..] == lines;
    while n < |lines|
      invariant n <= |lines| && result + ParseLines(lines[n..]) == ParseLines(lines)
    {
      ghost var before := result;
      assert lines[n..][1..] == lines[n + 1..];
      var found := ParseHeader(lines[n]);
      result := result + found;
      ConcatAssociative(before, found, ParseLines(lines[n + 1..]));
      n := n + 1;
    }
    assert lines[n..] == [];
  }

  /** The two inner loops. */
  method ParseHeader(line: string) returns (result: seq<Extension>)
    ensures result == ParseLine(line)
  {
    hide SkipSpace, Token, AfterToken, TokenLength, TokenOrQuoted, IsSpace;
    result := [];
    var s := line;
    while true
      invariant result + ParseLine(s) == ParseLine(line)
      decreases |s|
    {
      ghost var begun := s;
      var t;
      s := SkipSpaceIn(s);
      t, s := NextToken(s);
      if t == "" {
        return;
      }
      var ext: Extension := map["" := t];
      ghost var params := s;
      while true
        invariant ParseParams(s, ext) == ParseParams(params, map["" := t]) && |s| <= |params|
        decreases |s|
      {
        ghost var s0 := s;
        s := SkipSpaceIn(s);
        if s == "" || s[0] != ';' {
          break;
        }
        var k, v := "", "";
        s := SkipSpaceIn(s[1..]);
        k, s := NextToken(s);
        if k == "" {
          return;
        }
        s := SkipSpaceIn(s);
        if s != "" && s[0] == '=' {
          s := SkipSpaceIn(s[1..]);
          v, s := NextTokenOrQuoted(s);
          s := SkipSpaceIn(s);
        } else {
          SkipSpaceTwice(s);
        }
        if s != "" && s[0] != ',' && s[0] != ';' {
          return;
        }
        assert ParseParam(SkipSpace(s0)[1..]) == Some((k, v, s));
        ext := ext[k := v];
      }
      assert ParseParams(params, map["" := t]) == Params(ext, s);
      if s != "" && s[0] != ',' {
        return;
      }
      ghost var before := result;
      result := result + [ext];
      if s == "" {
        return;
      }
      s := s[1..];
      ConcatAssociative(before, [ext], ParseLine(s));
    }
  }

  lemma SkipSpaceTwice(s: string)
    ensures s != "" && !IsSpace(s[0]) ==> SkipSpace(s) == s
    ensures s == "" ==> SkipSpace(s) == s
  {
  }

  // ----- the grammar, with the white space and the quoting as they stand in the text -----

  /** A character of a quoted string, as itself or after a backslash. */
  datatype QuotedChar = Plain(c: char) | Escaped(c: char)

  /** Unclosed is not of the grammar, but the parser takes it: a quoted string that the header ends in. */
  datatype Value =
    | NoValue
    | TokenValue(gap: string, token: string)
    | QuotedValue(gap: string, chars: seq<QuotedChar>)
    | Unclosed(gap: string, text: string)

  datatype Param = Param(before: string, gap: string, key: string, after: string, value: Value)
  datatype Element = Element(before: string, name: string, params: seq<Param>, after: string)

  predicate Blank(w: string) {
    forall i :: 0 <= i < |w| ==> IsSpace(w[i])
  }

  predicate TokenOctets(t: string) {
    forall i :: 0 <= i < |t| ==> IsTokenOctet(t[i])
  }

  /** The text of a construct, followed by tail. */
  function CharsText(chars: seq<QuotedChar>, tail: string): string {
    if chars == [] then ['"'] + tail
    else (if chars[0].Plain? then [chars[0].c] else ['\\', chars[0].c]) + CharsText(chars[1..], tail)
  }

  function ValueText(v: Value, tail: string): string {
    match v
    case NoValue => tail
    case TokenValue(gap, token) => ['='] + (gap + (token + tail))
    case QuotedValue(gap, chars) => ['='] + (gap + (['"'] + CharsText(chars, tail)))
    case Unclosed(gap, text) => ['='] + (gap + (['"'] + text))
  }

  function ParamText(p: Param, tail: string): string {
    p.before + ([';'] + (p.gap + (p.key + (p.after + ValueText(p.value, tail)))))
  }

  function ParamsText(ps: seq<Param>, tail: string): string {
    if ps == [] then tail else ParamText(ps[0], ParamsText(ps[1..], tail))
  }

  function ElementText(e: Element, tail: string): string {
    e.before + (e.name + ParamsText(e.params, e.after + tail))
  }

  function ListText(es: seq<Element>): string {
    if es == [] then "" else ElementText(es[0], if |es| == 1 then "" else [','] + ListText(es[1..]))
  }

  predicate ValueOk(v: Value, tail: string) {
    match v
    case NoValue => true
    case TokenValue(gap, token) => Blank(gap) && TokenOctets(token)
    case QuotedValue(gap, chars) =>
      Blank(gap) && forall i :: 0 <= i < |chars| && chars[i].Plain? ==> chars[i].c != '"' && chars[i].c != '\\'
    case Unclosed(gap, text) => Blank(gap) && Unquote(text) == Unterminated && tail == ""
  }

  predicate ParamOk(p: Param, tail: string) {
    && Blank(p.before) && Blank(p.gap) && Blank(p.after)
    && p.key != "" && TokenOctets(p.key) && ValueOk(p.value, tail)
  }

  predicate ParamsOk(ps: seq<Param>, tail: string) {
    ps != [] ==> ParamOk(ps[0], ParamsText(ps[1..], tail)) && ParamsOk(ps[1..], tail)
  }

  /** What may follow tail is nothing or the next element. */
  predicate ElementOk(e: Element, tail: string) {
    && Blank(e.before) && e.name != "" && TokenOctets(e.name)
    && ParamsOk(e.params, e.after + tail) && Blank(e.after)
    && (tail == "" || tail[0] == ',')
  }

  predicate ListOk(es: seq<Element>) {
    es != [] ==> ElementOk(es[0], if |es| == 1 then "" else [','] + ListText(es[1..])) && ListOk(es[1..])
  }

  function CharsMeaning(chars: seq<QuotedChar>): string {
    if chars == [] then "" else [chars[0].c] + CharsMeaning(chars[1..])
  }

  function ValueMeaning(v: Value): string {
    match v
    case NoValue => ""
    case TokenValue(_, token) => token
    case QuotedValue(_, chars) => CharsMeaning(chars)
    case Unclosed(_, _) => ""
  }

  /** A later parameter of the same name stands. */
  function ParamsMeaning(ps: seq<Param>, ext: Extension): Extension {
    if ps == [] then ext else ParamsMeaning(ps[1..], ext[ps[0].key := ValueMeaning(ps[0].value)])
  }

  function ElementMeaning(e: Element): Extension {
    ParamsMeaning(e.params, map["" := e.name])
  }

  function ListMeaning(es: seq<Element>): seq<Extension> {
    if es == [] then [] else [ElementMeaning(es[0])] + ListMeaning(es[1..])
  }

  // ----- every text of the grammar is read as what it means -----

  lemma {:induction false} BlankThen(w: string, s: string)
    requires Blank(w)
    ensures SkipSpace(w + s) == SkipSpace(s)
  {
    if w == "" {
      assert w + s == s;
    } else {
      assert (w + s)[0] == w[0] && (w + s)[1..] == w[1..] + s;
      BlankThen(w[1..], s);
    }
  }

  lemma {:induction false} TokenThen(t: string, s: string)
    requires TokenOctets(t) && (s == "" || !IsTokenOctet(s[0]))
    ensures Token(t + s) == t && AfterToken(t + s) == s
  {
    var n := TokenLength(t + s);
    assert forall i :: 0 <= i < |t| ==> (t + s)[i] == t[i];
    assert s != "" ==> (t + s)[|t|] == s[0];
    assert n == |t|;
  }

  lemma {:induction false} UnquoteText(chars: seq<QuotedChar>, tail: string)
    requires ValueOk(QuotedValue("", chars), tail)
    ensures Unquote(CharsText(chars, tail)) == Quoted(CharsMeaning(chars), tail)
  {
    var s := CharsText(chars, tail);
    if chars == [] {
      assert s[1..] == tail;
    } else {
      UnquoteText(chars[1..], tail);
      assert s[if chars[0].Plain? then 1 else 2..] == CharsText(chars[1..], tail);
    }
  }

  /** What may come after a parameter. */
  predicate Follows(tail: string) {
    var s := SkipSpace(tail);
    s == "" || s[0] == ',' || s[0] == ';'
  }

  lemma Separators(c: char)
    ensures IsSpace(c) || c in ",;=\"" ==> !IsTokenOctet(c)
  {
  }

  lemma FollowsToken(tail: string)
    requires Follows(tail)
    ensures tail == "" || !IsTokenOctet(tail[0])
  {
    hide IsTokenOctet;
    if tail != "" {
      Separators(tail[0]);
    }
  }

  lemma Cons(c: char, s: string)
    ensures ([c] + s)[0] == c && ([c] + s)[1..] == s
    ensures !IsSpace(c) ==> SkipSpace([c] + s) == [c] + s
  {
  }

  /** White space before what follows may have been skipped with that before an empty token. */
  predicate ReadsValue(s: string, value: string, tail: string) {
    var (v, rest) := TokenOrQuoted(SkipSpace(s));
    v == value && SkipSpace(rest) == SkipSpace(tail)
  }

  lemma TokenRead(gap: string, token: string, tail: string)
    requires Blank(gap) && TokenOctets(token) && Follows(tail)
    ensures ReadsValue(gap + (token + tail), token, tail)
  {
    hide IsTokenOctet, IsSpace, TokenLength, Unquote, Blank;
    BlankThen(gap, token + tail);
    FollowsToken(tail);
    if token == "" {
      assert token + tail == tail;
      NoTokenRead(tail);
    } else {
      TokenStarts(token, tail);
      TokenThen(token, tail);
    }
  }

  lemma NoTokenRead(tail: string)
    requires Follows(tail)
    ensures ReadsValue(tail, "", tail)
  {
    hide IsTokenOctet, IsSpace, TokenLength, Unquote, SkipSpace, Token, AfterToken;
    var s := SkipSpace(tail);
    SkipSpaceTwice(s);
    FollowsToken(s);
    NoToken(s);
  }

  lemma NoToken(s: string)
    requires s == "" || !IsTokenOctet(s[0])
    ensures Token(s) == "" && AfterToken(s) == s
  {
    hide IsTokenOctet;
  }

  lemma TokenStarts(token: string, tail: string)
    requires TokenOctets(token) && token != ""
    ensures var s := token + tail; SkipSpace(s) == s && s[0] != '"'
  {
    hide IsTokenOctet;
    Separators(token[0]);
    Cons(token[0], token[1..] + tail);
    assert token + tail == [token[0]] + (token[1..] + tail);
  }

  lemma QuotedRead(gap: string, text: string)
    requires Blank(gap)
    ensures TokenOrQuoted(SkipSpace(gap + (['"'] + text))) ==
            match Unquote(text) case Unterminated => ("", "") case Quoted(v, r) => (v, r)
  {
    var t := ['"'] + text;
    BlankThen(gap, t);
    assert SkipSpace(t) == t && t[1..] == text;
  }

  lemma ValueRead(v: Value, tail: string)
    requires ValueOk(v, tail) && Follows(tail) && !v.NoValue?
    ensures var s := ValueText(v, tail); s[0] == '=' && ReadsValue(s[1..], ValueMeaning(v), tail)
  {
    hide Unquote, TokenOrQuoted, SkipSpace;
    var s := ValueText(v, tail);
    match v {
      case TokenValue(gap, token) =>
        assert s[1..] == gap + (token + tail);
        TokenRead(gap, token, tail);
      case QuotedValue(gap, chars) =>
        assert s[1..] == gap + (['"'] + CharsText(chars, tail));
        QuotedRead(gap, CharsText(chars, tail));
        UnquoteText(chars, tail);
      case Unclosed(gap, text) =>
        assert s[1..] == gap + (['"'] + text);
        QuotedRead(gap, text);
    }
  }

  lemma ParamRead(p: Param, tail: string)
    requires ParamOk(p, tail) && Follows(tail)
    ensures var s := SkipSpace(ParamText(p, tail));
            s != "" && s[0] == ';' && ParseParam(s[1..]) == Some((p.key, ValueMeaning(p.value), SkipSpace(tail)))
  {
    hide TokenOrQuoted, TokenLength, SkipSpace, TokenOctets, Blank, IsSpace, ValueText, Token, AfterToken, ValueOk;
    var v := ValueText(p.value, tail);
    var k := p.key + (p.after + v);
    var s := [';'] + (p.gap + k);
    BlankThen(p.before, s);
    Cons(';', p.gap + k);
    SpaceIs(';');
    BlankThen(p.gap, k);
    ValueStarts(p.value, tail);
    KeyRead(p, v);
    BlankThen(p.after, v);
    SkipSpaceTwice(SkipSpace(tail));
    if !p.value.NoValue? {
      ValueRead(p.value, tail);
      SkipSpaceTwice(v);
    }
  }

  lemma SpaceIs(c: char)
    ensures IsSpace(c) <==> c == ' ' || c == '\t'
  {
  }

  lemma ValueStarts(v: Value, tail: string)
    requires Follows(tail)
    ensures var s := ValueText(v, tail); s == "" || !IsTokenOctet(s[0])
    ensures v.NoValue? ==> ValueText(v, tail) == tail
    ensures !v.NoValue? ==> var s := ValueText(v, tail); s != "" && s[0] == '=' && !IsSpace(s[0])
  {
    hide IsTokenOctet;
    FollowsToken(tail);
    Separators('=');
  }

  lemma KeyRead(p: Param, v: string)
    requires TokenOctets(p.key) && p.key != "" && Blank(p.after)
    requires v == "" || !IsTokenOctet(v[0])
    ensures var k := p.key + (p.after + v);
            SkipSpace(k) == k && Token(k) == p.key && AfterToken(k) == p.after + v
  {
    hide IsTokenOctet, TokenLength, SkipSpace, TokenOctets, Token, AfterToken;
    var r := p.after + v;
    TokenStarts(p.key, r);
    if p.after == "" {
      assert r == v;
    } else {
      Separators(r[0]);
    }
    TokenThen(p.key, r);
  }

  lemma {:induction false} ParamsRead(ps: seq<Param>, tail: string, ext: Extension)
    requires ParamsOk(ps, tail) && Follows(tail)
    requires var s := SkipSpace(tail); s == "" || s[0] == ','
    ensures Follows(ParamsText(ps, tail))
    ensures ParseParams(ParamsText(ps, tail), ext) == Params(ParamsMeaning(ps, ext), SkipSpace(tail))
  {
    hide SkipSpace, ParseParam, ParamText, ParamOk;
    if ps != [] {
      var p, more := ps[0], ParamsText(ps[1..], tail);
      var ext' := ext[p.key := ValueMeaning(p.value)];
      ParamsRead(ps[1..], tail, ext');
      ParamRead(p, more);
      SpaceFirst(more, ext');
    }
  }

  lemma SpaceFirst(s: string, ext: Extension)
    ensures ParseParams(SkipSpace(s), ext) == ParseParams(s, ext)
  {
    SkipSpaceTwice(SkipSpace(s));
  }

  lemma ElementRead(e: Element, tail: string)
    requires ElementOk(e, tail)
    ensures ParseLine(ElementText(e, tail)) ==
            [ElementMeaning(e)] + (if tail == "" then [] else ParseLine(tail[1..]))
  {
    hide SkipSpace, ParseParams, ParamsText, ParamsMeaning, Token, AfterToken, TokenLength, TokenOctets, IsTokenOctet;
    var end := e.after + tail;
    BlankThen(e.after, tail);
    SeparatorStands(tail);
    var more := ParamsText(e.params, end);
    ParamsRead(e.params, end, map["" := e.name]);
    FollowsToken(more);
    BlankThen(e.before, e.name + more);
    TokenStarts(e.name, more);
    TokenThen(e.name, more);
  }

  lemma SeparatorStands(s: string)
    requires s == "" || s[0] == ','
    ensures SkipSpace(s) == s
  {
  }

  /**
   Printing a list of extensions, with any white space and any quoting the grammar allows, and parsing it gives
   the extensions: their names under "" and for every parameter name its last value.
   */
  lemma {:induction false} ListRead(es: seq<Element>)
    requires ListOk(es)
    ensures ParseLine(ListText(es)) == ListMeaning(es)
  {
    hide ElementText, ElementMeaning, ElementOk, ParseLine;
    if es == [] {
      EmptyLine();
    } else {
      ListRead(es[1..]);
      var tail := if |es| == 1 then "" else [','] + ListText(es[1..]);
      ElementRead(es[0], tail);
    }
  }

  lemma EmptyLine()
    ensures ParseLine("") == []
  {
  }

  /** The header that browsers send. */
  lemma BrowserHeader()
    ensures ParseLine("permessage-deflate" + "; " + "client_max_window_bits") ==
            [map["" := "permessage-deflate", "client_max_window_bits" := ""]]
  {
    hide ParseLine, TokenOctets;
    BrowserTokens();
    OneParameter("permessage-deflate", "client_max_window_bits");
  }

  lemma BrowserTokens()
    ensures TokenOctets("permessage-deflate") && TokenOctets("client_max_window_bits")
  {
  }

  lemma OneParameter(name: string, key: string)
    requires name != "" && key != "" && TokenOctets(name) && TokenOctets(key)
    ensures ParseLine(name + "; " + key) == [map["" := name, key := ""]]
  {
    hide ParseLine, TokenOctets;
    var p := Param("", " ", key, "", NoValue);
    var e := Element("", name, [p], "");
    assert ParamsText([p], "") == ParamText(p, ParamsText([], ""));
    assert ParamText(p, "") == "; " + key;
    assert ElementText(e, "") == name + ("; " + key) == name + "; " + key;
    assert [p][1..] == [];
    assert Blank("") && Blank(" ");
    assert ParamsOk([p], "");
    ElementRead(e, "");
    assert ParamsMeaning([p], map["" := name]) == ParamsMeaning([], map["" := name][key := ""]);
  }

  // ----- nothing else is read -----

  lemma {:induction false} Spaces(s: string) returns (w: string)
    ensures Blank(w) && s == w + SkipSpace(s)
  {
    w := "";
    if s != "" && IsSpace(s[0]) {
      var w' := Spaces(s[1..]);
      w := [s[0]] + w';
      assert s == [s[0]] + s[1..];
    }
  }

  lemma TokenSplits(s: string)
    ensures TokenOctets(Token(s)) && s == Token(s) + AfterToken(s)
  {
    hide IsTokenOctet;
  }

  lemma {:induction false} CharsOf(s: string) returns (chars: seq<QuotedChar>)
    requires Unquote(s).Quoted?
    ensures ValueOk(QuotedValue("", chars), "") && s == CharsText(chars, Unquote(s).rest)
  {
    UnquoteStep(s, 0);
    assert s[0..] == s;
    if s[0] == '"' {
      chars := [];
      assert s == ['"'] + s[1..];
    } else if s[0] == '\\' {
      var more := CharsOf(s[2..]);
      chars := [Escaped(s[1])] + more;
      assert s == [s[0], s[1]] + s[2..];
    } else {
      var more := CharsOf(s[1..]);
      chars := [Plain(s[0])] + more;
      assert s == [s[0]] + s[1..];
    }
  }

  lemma Headed(s: string)
    requires s != ""
    ensures s == [s[0]] + s[1..]
  {
  }

  lemma ValueOf(s: string) returns (v: Value, tail: string)
    requires s != "" && s[0] == '='
    ensures s == ValueText(v, tail) && ValueOk(v, tail) && !v.NoValue?
    ensures tail == TokenOrQuoted(SkipSpace(s[1..])).1
  {
    hide SkipSpace, Unquote, CharsText, TokenOctets, Token, AfterToken, Blank;
    var gap := Spaces(s[1..]);
    Headed(s);
    var r := SkipSpace(s[1..]);
    tail := TokenOrQuoted(r).1;
    if r == "" || r[0] != '"' {
      TokenSplits(r);
      v := TokenValue(gap, Token(r));
    } else {
      Headed(r);
      var text := r[1..];
      if Unquote(text) == Unterminated {
        v := Unclosed(gap, text);
      } else {
        var chars := CharsOf(text);
        v := QuotedValue(gap, chars);
      }
    }
  }

  /** s follows the semicolon. */
  lemma ParamOf(before: string, s: string) returns (p: Param, tail: string)
    requires Blank(before) && ParseParam(s).Some?
    ensures before + ([';'] + s) == ParamText(p, tail) && ParamOk(p, tail)
    ensures Follows(tail) && ParseParam(s).value.2 == SkipSpace(tail) && |tail| <= |s|
  {
    hide SkipSpace, TokenOrQuoted, TokenOctets, Token, AfterToken, Blank, ValueOk, ValueText, IsSpace;
    var gap := Spaces(s);
    var s1 := SkipSpace(s);
    TokenSplits(s1);
    var s2 := SkipSpace(AfterToken(s1));
    var after := Spaces(AfterToken(s1));
    var v := NoValue;
    tail := s2;
    if s2 != "" && s2[0] == '=' {
      v, tail := ValueOf(s2);
    } else {
      NoValueText(s2);
    }
    p := Param(before, gap, Token(s1), after, v);
  }

  lemma NoValueText(tail: string)
    ensures ValueText(NoValue, tail) == tail && ValueOk(NoValue, tail)
  {
  }

  lemma {:induction false} ParamsOf(s: string, ext: Extension) returns (ps: seq<Param>, after: string)
    requires ParseParams(s, ext).Params?
    ensures var tail := after + ParseParams(s, ext).rest;
            s == ParamsText(ps, tail) && ParamsOk(ps, tail) && Blank(after)
    decreases |s|
  {
    hide SkipSpace, ParseParam, ParamText, ParamOk, Blank;
    var w := Spaces(s);
    var s1 := SkipSpace(s);
    if s1 == "" || s1[0] != ';' {
      ps, after := [], w;
    } else {
      Headed(s1);
      var (k, v, rest) := ParseParam(s1[1..]).value;
      var p, tail := ParamOf(w, s1[1..]);
      SpaceFirst(tail, ext[k := v]);
      var qs;
      qs, after := ParamsOf(tail, ext[k := v]);
      ps := [p] + qs;
      assert ps[1..] == qs;
    }
  }

  lemma ElementOf(s: string) returns (e: Element, tail: string)
    requires ParseLine(s) != []
    ensures ElementOk(e, tail) && s == ElementText(e, tail)
  {
    hide SkipSpace, ParseParams, ParamsText, ParamsOk, TokenOctets, Token, AfterToken, Blank;
    var before := Spaces(s);
    var s1 := SkipSpace(s);
    TokenSplits(s1);
    var ext: Extension := map["" := Token(s1)];
    tail := ParseParams(AfterToken(s1), ext).rest;
    var ps, after := ParamsOf(AfterToken(s1), ext);
    e := Element(before, Token(s1), ps, after);
  }

  /** A header gives an extension exactly when it begins with the text of one, ended by a comma or the header's end. */
  lemma ParsesExactly(s: string)
    ensures ParseLine(s) != [] <==> exists e, tail :: ElementOk(e, tail) && s == ElementText(e, tail)
  {
    hide ParseLine, ElementOk, ElementText;
    if ParseLine(s) != [] {
      var e, tail := ElementOf(s);
    }
    if e, tail :| ElementOk(e, tail) && s == ElementText(e, tail) {
      ElementRead(e, tail);
    }
  }

  /** Elements with commas between them; after the last nothing, or a comma and more that begins no element. */
  function SplitText(es: seq<Element>, more: Option<string>): string
    requires es == [] ==> more.Some?
  {
    if es == [] then more.value
    else ElementText(es[0], if |es| == 1 && more == None then "" else [','] + SplitText(es[1..], more))
  }

  predicate SplitOk(es: seq<Element>, more: Option<string>)
    requires es == [] ==> more.Some?
  {
    if es == [] then ParseLine(more.value) == []
    else
      && ElementOk(es[0], if |es| == 1 && more == None then "" else [','] + SplitText(es[1..], more))
      && (|es| > 1 || more.Some? ==> SplitOk(es[1..], more))
  }

  /** Every header is elements and then nothing or something that begins no element, and means those elements. */
  lemma {:induction false} LineSplits(s: string) returns (es: seq<Element>, more: Option<string>)
    ensures (es == [] ==> more.Some?) && SplitOk(es, more) && s == SplitText(es, more)
    ensures ParseLine(s) == ListMeaning(es)
    decreases |s|
  {
    hide ParseLine, ElementOk, ElementText, ElementMeaning;
    if ParseLine(s) == [] {
      es, more := [], Some(s);
    } else {
      var e, tail := ElementOf(s);
      ElementRead(e, tail);
      if tail == "" {
        es, more := [e], None;
        assert ListMeaning([e]) == [ElementMeaning(e)] + ListMeaning([]);
      } else {
        TailShorter(e, tail);
        var fs;
        fs, more := LineSplits(tail[1..]);
        es := [e] + fs;
        Headed(tail);
      }
    }
  }

  lemma TailShorter(e: Element, tail: string)
    requires ElementOk(e, tail) && tail != ""
    ensures tail[0] == ',' && |tail| <= |ElementText(e, tail)|
  {
    TextLength(e.params, e.after + tail);
  }

  lemma {:induction false} TextLength(ps: seq<Param>, tail: string)
    ensures ParamsOk(ps, tail) ==> |tail| <= |ParamsText(ps, tail)|
  {
    if ps != [] && ParamsOk(ps, tail) {
      var more := ParamsText(ps[1..], tail);
      TextLength(ps[1..], tail);
      match ps[0].value {
        case QuotedValue(gap, chars) => CharsLength(chars, more);
        case _ =>
      }
    }
  }

  lemma {:induction false} CharsLength(chars: seq<QuotedChar>, tail: string)
    ensures |tail| < |CharsText(chars, tail)|
  {
    if chars != [] {
      CharsLength(chars[1..], tail);
    }
  }
}
