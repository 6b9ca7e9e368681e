/**
 ext2_normalize_path (kernel/src/fs/ext2.c:502-559): a path becomes "/" or a
 slash-led list of components without "." and "..".
 */
module Paths {
  import opened CStrings

  const MAX_PATH: nat := 256
  const SLASH: string := "/"

  // ---------- components ----------

  /** A component of a normalised path. */
  predicate Component(c: string) {
    c != [] && '/' !in c && NUL !in c && c != "." && c != ".."
  }

  predicate Components(l: seq<string>) {
    forall i :: 0 <= i < |l| ==> Component(l[i])
  }

  /** Each component behind a slash. */
  function Join(l: seq<string>): (r: string)
  {
    if l == [] then [] else Join(l[..|l| - 1]) + SLASH + l[|l| - 1]
  }

  /** The path of a list of components. */
  function PathOf(l: seq<string>): string {
    if l == [] then SLASH else Join(l)
  }

  /** One token of the input; ".." takes the last component away unless it is the only one. */
  function Step(l: seq<string>, token: string): seq<string> {
    if token == "." then l
    else if token == ".." then (if |l| >= 2 then l[..|l| - 1] else l)
    else l + [token]
  }

  function Fold(l: seq<string>, tokens: seq<string>): seq<string>
    decreases |tokens|
  {
    if tokens == [] then l else Fold(Step(l, tokens[0]), tokens[1..])
  }

  /** The components of an absolute text. */
  function Resolve(t: string): seq<string> {
    Fold([], Tokens(t, SLASH))
  }

  function Normal(t: string): string {
    PathOf(Resolve(t))
  }

  // ---------- what normal paths look like ----------

  /** Tokens are neither empty nor do they hold a slash. */
  predicate Plain(tokens: seq<string>) {
    forall i :: 0 <= i < |tokens| ==> tokens[i] != [] && '/' !in tokens[i] && NUL !in tokens[i]
  }

  lemma {:induction false} TokensPlain(t: string)
    requires NoNul(t)
    ensures Plain(Tokens(t, SLASH))
    decreases |t|
  {
    hide Tokens, Skip, Span;
    var u := Skip(t, SLASH);
    if u == [] {
      TokensNone(t, SLASH);
    } else {
      var n := Span(u, SLASH);
      TokensStep(t, SLASH);
      TokenPlain(t);
      SpanPositive(t);
      TokensPlain(u[n..]);
    }
  }

  lemma TokenPlain(t: string)
    requires NoNul(t)
    ensures var u := Skip(t, SLASH);
            u != [] ==> Plain([u[..Span(u, SLASH)]]) && NoNul(u[Span(u, SLASH)..])
  {
    hide Skip, Span;
    var u := Skip(t, SLASH);
    if u != [] {
      var n := Span(u, SLASH);
      SpanPositive(t);
      SuffixNoNul(t, |t| - |u|);
      SuffixNoNul(u, n);
      assert '/' in SLASH && forall i :: 0 <= i < n ==> u[..n][i] == u[i];
    }
  }

  lemma SuffixNoNul(t: string, k: nat)
    requires NoNul(t) && k <= |t|
    ensures NoNul(t[k..])
  {
  }

  lemma {:induction false} FoldComponents(l: seq<string>, tokens: seq<string>)
    requires Components(l) && Plain(tokens)
    ensures Components(Fold(l, tokens))
    decreases |tokens|
  {
    if tokens != [] {
      FoldComponents(Step(l, tokens[0]), tokens[1..]);
    }
  }

  /** Every normalised path is "/" or a slash-led list of proper components. */
  lemma NormalShape(t: string)
    requires NoNul(t)
    ensures Components(Resolve(t))
    ensures Normal(t) == SLASH || (Resolve(t) != [] && Normal(t) == Join(Resolve(t)))
  {
    TokensPlain(t);
    FoldComponents([], Tokens(t, SLASH));
  }

  // ---------- length ----------

  /** Length of the tokens, each with a slash in front. */
  function Weight(tokens: seq<string>): nat {
    if tokens == [] then 0 else 1 + |tokens[0]| + Weight(tokens[1..])
  }

  lemma {:induction false} TokensWeight(t: string)
    ensures Weight(Tokens(t, SLASH)) <= |t| + 1
    ensures t == [] || t[0] == '/' ==> Weight(Tokens(t, SLASH)) <= |t|
    decreases |t|
  {
    hide Tokens, Skip, Span;
    var u := Skip(t, SLASH);
    if u == [] {
      TokensNone(t, SLASH);
    } else {
      var n := Span(u, SLASH);
      SpanPositive(t);
      var rest := u[n..];
      TokensStep(t, SLASH);
      TokensWeight(rest);
      assert ([u[..n]] + Tokens(rest, SLASH))[1..] == Tokens(rest, SLASH);
      assert Weight(Tokens(t, SLASH)) == 1 + n + Weight(Tokens(rest, SLASH));
    }
  }

  lemma SpanPositive(t: string)
    ensures var u := Skip(t, SLASH);
            u != [] ==>
              0 < Span(u, SLASH) && (Span(u, SLASH) < |u| ==> u[Span(u, SLASH)] == '/') && (t[0] == '/' ==> |u| < |t|)
  {
  }

  lemma {:induction false} FoldLength(l: seq<string>, tokens: seq<string>)
    ensures |Join(Fold(l, tokens))| <= |Join(l)| + Weight(tokens)
    decreases |tokens|
  {
    if tokens != [] {
      StepLength(l, tokens[0]);
      FoldLength(Step(l, tokens[0]), tokens[1..]);
    }
  }

  lemma StepLength(l: seq<string>, token: string)
    ensures |Join(Step(l, token))| <= |Join(l)| + 1 + |token|
  {
    assert (l + [token])[..|l|] == l;
  }

  /** Normalising an absolute path does not make it longer. */
  lemma NormalLength(t: string)
    requires t != [] && t[0] == '/'
    ensures |Normal(t)| <= |t|
  {
    TokensWeight(t);
    FoldLength([], Tokens(t, SLASH));
  }

  // ---------- normalising twice ----------

  lemma TokensOfSlash()
    ensures Tokens(SLASH, SLASH) == []
  {
    assert Skip(SLASH, SLASH) == Skip(SLASH[1..], SLASH) == [];
  }

  /** The tokens of two texts with a slash between them. */
  lemma {:induction false} TokensConcat(t: string, p: string)
    ensures Tokens(t + SLASH + p, SLASH) == Tokens(t, SLASH) + Tokens(p, SLASH)
    decreases |t|
  {
    hide Tokens;
    var full := t + SLASH + p;
    if t == [] {
      TokensNone([], SLASH);
      TokensSkipOne(full, SLASH);
      assert full[1..] == p;
    } else if t[0] == '/' {
      TokensSkipOne(t, SLASH);
      TokensSkipOne(full, SLASH);
      assert full[1..] == t[1..] + SLASH + p;
      TokensConcat(t[1..], p);
    } else {
      var n := FirstToken(t, full, p);
      TokensConcat(t[n..], p);
      assert [t[..n]] + (Tokens(t[n..], SLASH) + Tokens(p, SLASH))
          == [t[..n]] + Tokens(t[n..], SLASH) + Tokens(p, SLASH);
    }
  }

  lemma TokensOfComponent(c: string)
    requires c != [] && '/' !in c
    ensures Tokens(c, SLASH) == [c]
  {
    hide Tokens;
    TokenOf(c, SLASH, 0, |c|);
    TokensNone([], SLASH);
    assert c[0..|c|] == c && c[|c|..] == [];
  }

  /** A text and the same text with more behind it have the same first token. */
  lemma FirstToken(t: string, full: string, c: string) returns (n: nat)
    requires full == t + SLASH + c && t != [] && t[0] != '/'
    ensures 0 < n <= |t| && full[n..] == t[n..] + SLASH + c
    ensures Tokens(t, SLASH) == [t[..n]] + Tokens(t[n..], SLASH)
    ensures Tokens(full, SLASH) == [t[..n]] + Tokens(full[n..], SLASH)
  {
    hide Tokens;
    n := Span(t, SLASH);
    assert n > 0 by { assert t[0] !in SLASH; }
    TokenOf(t, SLASH, 0, n);
    assert t[0..n] == t[..n] == full[0..n];
    forall i | 0 <= i < n ensures full[i] !in SLASH { assert full[i] == t[i]; }
    assert full[n] == if n < |t| then t[n] else '/';
    TokenOf(full, SLASH, 0, n);
  }

  lemma {:induction false} TokensOfJoin(l: seq<string>)
    requires Components(l)
    ensures Tokens(Join(l), SLASH) == l
  {
    hide Tokens;
    if l == [] {
      TokensNone([], SLASH);
    } else {
      var m := l[..|l| - 1];
      TokensOfJoin(m);
      assert Component(l[|l| - 1]);
      TokensConcat(Join(m), l[|l| - 1]);
      TokensOfComponent(l[|l| - 1]);
    }
  }

  lemma {:induction false} FoldOfComponents(l: seq<string>, tokens: seq<string>)
    requires Components(tokens)
    ensures Fold(l, tokens) == l + tokens
    decreases |tokens|
  {
    if tokens != [] {
      assert Component(tokens[0]);
      FoldOfComponents(l + [tokens[0]], tokens[1..]);
      assert l + [tokens[0]] + tokens[1..] == l + tokens;
    }
  }

  /** A normalised path is its own normal form, and names exactly its components. */
  lemma NormalTwice(t: string)
    requires NoNul(t)
    ensures Normal(Normal(t)) == Normal(t) && Resolve(Normal(t)) == Resolve(t)
  {
    hide Tokens, Fold, Join;
    NormalShape(t);
    var l := Resolve(t);
    if l == [] {
      TokensOfSlash();
      assert Resolve(SLASH) == [] by { FoldOfComponents([], []); }
    } else {
      TokensOfJoin(l);
      FoldOfComponents([], l);
      assert [] + l == l;
    }
  }

  // ---------- paths behind a directory ----------

  lemma {:induction false} FoldConcat(l: seq<string>, a: seq<string>, b: seq<string>)
    ensures Fold(l, a + b) == Fold(Fold(l, a), b)
    decreases |a|
  {
    if a == [] {
      assert a + b == b;
    } else {
      assert (a + b)[1..] == a[1..] + b;
      FoldConcat(Step(l, a[0]), a[1..], b);
    }
  }

  /** A path behind a directory is resolved from the components of the directory on. */
  lemma ResolveConcat(dir: string, path: string)
    ensures Resolve(dir + SLASH + path) == Fold(Resolve(dir), Tokens(path, SLASH))
  {
    hide Tokens, Fold;
    TokensConcat(dir, path);
    FoldConcat([], Tokens(dir, SLASH), Tokens(path, SLASH));
  }

  // ---------- the meaning of ".." ----------

  /** ".." as a stack would have it. */
  function StackStep(l: seq<string>, token: string): seq<string> {
    if token == "." then l
    else if token == ".." then (if l == [] then [] else l[..|l| - 1])
    else l + [token]
  }

  function StackFold(l: seq<string>, tokens: seq<string>): seq<string>
    decreases |tokens|
  {
    if tokens == [] then l else StackFold(StackStep(l, tokens[0]), tokens[1..])
  }

  /** Once there is a component, the first one stays for good and the rest behave as a stack. */
  lemma {:induction false} FirstStays(a: string, l: seq<string>, tokens: seq<string>)
    ensures Fold([a] + l, tokens) == [a] + StackFold(l, tokens)
    decreases |tokens|
  {
    if tokens != [] {
      assert Step([a] + l, tokens[0]) == [a] + StackStep(l, tokens[0]);
      FirstStays(a, StackStep(l, tokens[0]), tokens[1..]);
    }
  }

  /** At some point ".." meets no component above the first `n`. */
  predicate Underflows(depth: nat, tokens: seq<string>)
    decreases |tokens|
  {
    tokens != [] &&
      (if tokens[0] == "." then Underflows(depth, tokens[1..])
       else if tokens[0] == ".." then depth == 0 || Underflows(depth - 1, tokens[1..])
       else Underflows(depth + 1, tokens[1..]))
  }

  /** Normalisation after a first component is a stack exactly when ".." never reaches that component. */
  lemma {:induction false} StackExactly(a: string, l: seq<string>, tokens: seq<string>)
    ensures Fold([a] + l, tokens) == StackFold([a] + l, tokens) <==> !Underflows(|l|, tokens)
    decreases |tokens|
  {
    FirstStays(a, l, tokens);
    if tokens != [] {
      if tokens[0] == ".." && l == [] {
        assert StackStep([a] + l, tokens[0]) == [];
        assert |[a] + StackFold([], tokens[1..])| != |StackFold([], tokens[1..])|;
      } else {
        assert StackStep([a] + l, tokens[0]) == [a] + StackStep(l, tokens[0]);
        FirstStays(a, StackStep(l, tokens[0]), tokens[1..]);
        StackExactly(a, StackStep(l, tokens[0]), tokens[1..]);
      }
    }
  }

  /** Behind the first proper component, some ".." would take that component away. */
  predicate Escapes(tokens: seq<string>)
    decreases |tokens|
  {
    tokens != [] && (if tokens[0] == "." || tokens[0] == ".." then Escapes(tokens[1..]) else Underflows(0, tokens[1..]))
  }

  lemma {:induction false} FoldIsStack(tokens: seq<string>)
    ensures Fold([], tokens) == StackFold([], tokens) <==> !Escapes(tokens)
    decreases |tokens|
  {
    if tokens != [] {
      if tokens[0] == "." || tokens[0] == ".." {
        assert Step([], tokens[0]) == [] == StackStep([], tokens[0]);
        FoldIsStack(tokens[1..]);
      } else {
        assert Step([], tokens[0]) == [tokens[0]] + [] == StackStep([], tokens[0]);
        StackExactly(tokens[0], [], tokens[1..]);
      }
    }
  }

  /** A path means what a stack makes of it exactly when no ".." reaches back to its first component. */
  lemma ResolveIsStack(t: string)
    ensures Resolve(t) == StackFold([], Tokens(t, SLASH)) <==> !Escapes(Tokens(t, SLASH))
  {
    FoldIsStack(Tokens(t, SLASH));
  }

  /** The shortest such path: a parent of a lone component is the component itself. */
  lemma LoneComponentStays(a: string)
    requires Component(a)
    ensures Fold([], [a, ".."]) == [a] && StackFold([], [a, ".."]) == [] && Escapes([a, ".."])
  {
    assert [a, ".."][1..] == [".."] && [".."][1..] == [];
    assert Step([], a) == [a] && StackStep([], a) == [a];
    assert Fold([a], [".."]) == Fold(Step([a], ".."), []);
    assert StackFold([a], [".."]) == StackFold(StackStep([a], ".."), []);
  }

  // ---------- the routine ----------

  datatype Arg = Null | Path(text: string)
  datatype Answer = NoPath | Normalized(text: string)

  function First255(t: string): (r: string)
    ensures |r| < MAX_PATH
  {
    if |t| < MAX_PATH then t else t[..MAX_PATH - 1]
  }

  /** The text that is split: relative paths start at the current directory, and 255 characters are kept. */
  function Prepared(path: string, cwd: string, mounted: bool): (t: string)
    requires cwd == [] || cwd[0] == '/'
    ensures |t| < MAX_PATH && t != [] && t[0] == '/'
  {
    if path != [] && path[0] == '/' then First255(path)
    else if mounted then First255(cwd + SLASH + path)
    else First255(SLASH + path)
  }

  lemma {:induction false} JoinText(l: seq<string>)
    requires Components(l)
    ensures NoNul(Join(l)) && (l == [] <==> Join(l) == [])
  {
    if l != [] {
      assert Component(l[|l| - 1]);
      JoinText(l[..|l| - 1]);
    }
  }

  /** The last slash of a path stands before its last component. */
  lemma LastSlash(l: seq<string>, r: int)
    requires Components(l) && l != [] && -1 <= r < |Join(l)|
    requires r >= 0 ==> Join(l)[r] == '/'
    requires forall j :: r < j < |Join(l)| ==> Join(l)[j] != '/'
    ensures r == |Join(l[..|l| - 1])| && Join(l)[..r] == Join(l[..|l| - 1])
    ensures r == 0 <==> |l| == 1
  {
    var m, c := l[..|l| - 1], l[|l| - 1];
    var k := |Join(m)|;
    assert Component(c);
    JoinText(m);
    assert Join(l)[k] == '/';
    assert forall j :: k < j < |Join(l)| ==> Join(l)[j] == c[j - k - 1];
  }

  /** The text in `a` is the path of the components so far. */
  ghost predicate Holds(a: seq<char>, l: seq<string>) {
    Components(l) && IsText(a, 0, |Join(l)|) && a[..|Join(l)|] == Join(l)
  }

  /** What the loop does with one token. */
  method Apply(normalized: array<char>, token: string, ghost l: seq<string>)
    requires Holds(normalized[..], l) && Plain([token]) && |Join(l)| + 1 + |token| < normalized.Length
    modifies normalized
    ensures Holds(normalized[..], Step(l, token))
  {
    ghost var n := |Join(l)|;
    if token == "." {
      return;
    }
    if token == ".." {
      Pop(normalized, l);
      return;
    }
    assert [token][0] == token;
    Strcat(normalized, n, SLASH);
    Strcat(normalized, n + 1, token);
    assert (l + [token])[..|l|] == l;
    assert normalized[..n + 1 + |token|] == Join(l + [token]);
  }

  /** ".." cuts the text at its last slash unless that is the first character. */
  method Pop(normalized: array<char>, ghost l: seq<string>)
    requires Holds(normalized[..], l)
    modifies normalized
    ensures Holds(normalized[..], if |l| >= 2 then l[..|l| - 1] else l)
  {
    ghost var n := |Join(l)|;
    var last := Strrchr(normalized, n, '/');
    assert forall j :: 0 <= j < n ==> normalized[j] == Join(l)[j];
    if l != [] {
      LastSlash(l, last);
    } else {
      assert n == 0;
    }
    if last >= 0 && last != 0 {
      ghost var m := l[..|l| - 1];
      assert Join(m) == normalized[..n][..last] == normalized[..last];
      normalized[last] := NUL;
    }
  }

  /**
   ext2_normalize_path: an absolute path of at most 255 characters becomes its
   normal form, which is no longer; a relative one is resolved from the current
   directory on, or from the root when nothing is mounted. What does not fit in 255
   characters is cut off first. No write leaves the 256 characters of either buffer.
   */
  method NormalizePath(path: Arg, cwd: string, mounted: bool) returns (r: Answer)
    requires path.Path? ==> NoNul(path.text)
    requires NoNul(cwd) && (cwd == [] || cwd[0] == '/')
    ensures path.Null? <==> r == NoPath
    ensures path.Path? && path.text != [] && path.text[0] == '/' ==>
              if |path.text| <= 255 then r.text == Normal(path.text) && |r.text| <= |path.text|
              else r.text == Normal(path.text[..255])
    ensures path.Path? && (path.text == [] || path.text[0] != '/') ==>
              var dir := if mounted then cwd else "";
              if |dir| + 1 + |path.text| <= 255 then Resolve(r.text) == Fold(Resolve(dir), Tokens(path.text, SLASH))
              else r.text == Normal((dir + "/" + path.text)[..255])
    ensures path.Path? ==> |r.text| <= 255 && Normal(r.text) == r.text
  {
    hide Tokens, Fold, Join, Weight, Pending, Holds, Plain, Step, Resolve;
    if path.Null? {
      return NoPath;
    }
    var t := Prepared(path.text, cwd, mounted);
    PreparedText(path.text, cwd, mounted);
    var temp := new char[MAX_PATH](i => if 0 <= i < |t| then t[i] else NUL);
    var normalized := new char[MAX_PATH](_ => NUL);
    assert temp[0..0 + |t|] == t;
    ghost var l, todo := [], Tokens(t, SLASH);
    NothingYet(normalized[..], t);
    var token: int, save: nat, len: nat, rest: nat := NextToken(temp, 0, |t|, t);
    while token != -1
      invariant Holds(normalized[..], l) && Plain(todo) && |Join(l)| + Weight(todo) < MAX_PATH
      invariant Pending(temp[..], token, save, len, rest, todo)
      invariant Fold(l, todo) == Resolve(t)
      decreases |todo|
    {
      PendingFacts(temp[..], token, save, len, rest, todo);
      var text := TokenText(temp, token, len);
      TodoStep(l, todo);
      Apply(normalized, text, l);
      l, todo := Step(l, todo[0]), todo[1..];
      token, save, len, rest := NextToken(temp, save, rest, temp[save..save + rest]);
    }
    PendingFacts(temp[..], token, save, len, rest, todo);
    FoldNone(l);
    r := Finished(normalized, l);
    NormalOf(t, l);
    PreparedMeans(path.text, cwd, mounted);
  }

  lemma NormalOf(t: string, l: seq<string>)
    requires l == Resolve(t)
    ensures PathOf(l) == Normal(t)
  {
  }

  /** The tokens still to come: the current one, terminated at `len`, and those of the text from `save` on. */
  ghost predicate Pending(s: seq<char>, token: int, save: nat, len: nat, rest: nat, todo: seq<string>) {
    && IsText(s, save, rest)
    && (token == -1 ==> todo == [])
    && (token != -1 ==> 0 <= token && 0 < len && token + len <= save && IsText(s, token, len)
                        && todo == [s[token..token + len]] + Tokens(s[save..save + rest], SLASH))
  }

  lemma PendingFacts(s: seq<char>, token: int, save: nat, len: nat, rest: nat, todo: seq<string>)
    requires Pending(s, token, save, len, rest, todo)
    ensures IsText(s, save, rest) && (token == -1 ==> todo == [])
    ensures token != -1 ==> 0 <= token && IsText(s, token, len) && todo != [] && todo[0] == s[token..token + len]
    ensures token != -1 ==> todo[1..] == Tokens(s[save..save + rest], SLASH)
  {
    hide Tokens;
  }

  method NextToken(temp: array<char>, from: nat, ghost n: nat, ghost t: string)
    returns (token: int, save: nat, ghost len: nat, ghost rest: nat)
    requires IsText(temp[..], from, n) && t == temp[from..from + n]
    modifies temp
    ensures Pending(temp[..], token, save, len, rest, Tokens(t, SLASH))
  {
    hide Tokens;
    token, save, len, rest := Strtok(temp, from, SLASH, n);
    assert token != -1 ==> temp[..][token..token + len] == temp[token..token + len];
    assert temp[..][save..save + rest] == temp[save..save + rest];
  }

  lemma FoldNone(l: seq<string>)
    ensures Fold(l, []) == l
  {
  }

  lemma TodoStep(l: seq<string>, todo: seq<string>)
    requires todo != [] && Plain(todo)
    ensures Plain([todo[0]]) && Plain(todo[1..]) && Fold(l, todo) == Fold(Step(l, todo[0]), todo[1..])
    ensures Weight(todo) == 1 + |todo[0]| + Weight(todo[1..])
    ensures |Join(Step(l, todo[0]))| <= |Join(l)| + 1 + |todo[0]|
  {
    StepLength(l, todo[0]);
  }

  lemma PreparedText(path: string, cwd: string, mounted: bool)
    requires NoNul(path) && NoNul(cwd) && (cwd == [] || cwd[0] == '/')
    ensures NoNul(Prepared(path, cwd, mounted))
  {
  }

  /** What the normal form of the prepared text means for the path that was given. */
  lemma PreparedMeans(path: string, cwd: string, mounted: bool)
    requires NoNul(path) && NoNul(cwd) && (cwd == [] || cwd[0] == '/')
    ensures var r := Normal(Prepared(path, cwd, mounted));
            && |r| <= 255 && Normal(r) == r
            && (path != [] && path[0] == '/' ==>
                  if |path| <= 255 then r == Normal(path) && |r| <= |path| else r == Normal(path[..255]))
            && (path == [] || path[0] != '/' ==>
                  var dir := if mounted then cwd else "";
                  if |dir| + 1 + |path| <= 255 then Resolve(r) == Fold(Resolve(dir), Tokens(path, SLASH))
                  else r == Normal((dir + "/" + path)[..255]))
  {
    hide Normal, Resolve, Fold, Tokens;
    var t := Prepared(path, cwd, mounted);
    PreparedText(path, cwd, mounted);
    NormalTwice(t);
    NormalLength(t);
    var dir := if mounted then cwd else "";
    ResolveConcat(dir, path);
    assert [] + SLASH + path == SLASH + path;
  }

  lemma NothingYet(a: seq<char>, t: string)
    requires |a| == MAX_PATH && a[0] == NUL && NoNul(t) && t != [] && t[0] == '/' && |t| < MAX_PATH
    ensures Holds(a, []) && Fold([], Tokens(t, SLASH)) == Resolve(t)
    ensures Plain(Tokens(t, SLASH)) && |Join([])| + Weight(Tokens(t, SLASH)) < MAX_PATH
  {
    hide Tokens, Fold, Weight;
    TokensPlain(t);
    TokensWeight(t);
  }

  /** The token as callers read it: the characters up to the next NUL. */
  method TokenText(a: array<char>, token: nat, ghost len: nat) returns (text: string)
    requires IsText(a[..], token, len)
    ensures text == a[token..token + len]
  {
    var p := token;
    while a[p] != NUL
      invariant token <= p <= token + len
      decreases token + len - p
    {
      p := p + 1;
    }
    text := a[token..p];
  }

  /** The end of the routine: an empty text becomes "/". */
  method Finished(normalized: array<char>, ghost l: seq<string>) returns (r: Answer)
    requires Holds(normalized[..], l) && normalized.Length == MAX_PATH
    modifies normalized
    ensures r == Normalized(PathOf(l))
  {
    JoinText(l);
    ghost var n := |Join(l)|;
    if normalized[0] == NUL {
      normalized[0] := '/';
      normalized[1] := NUL;
      n := 1;
      assert normalized[0..0 + n] == SLASH;
    }
    var text := TokenText(normalized, 0, n);
    r := Normalized(text);
  }
}
