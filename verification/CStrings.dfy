/**
 The string routines path normalisation uses (kernel/src/lib/string.c:78-184),
 on zero-terminated texts inside character arrays.
 */
module CStrings {
  const NUL: char := '\0'

  /** From `from` on the characters are `n` other than NUL and then a NUL. */
  predicate IsText(s: seq<char>, from: nat, n: nat) {
    from + n < |s| && s[from + n] == NUL && forall i :: from <= i < from + n ==> s[i] != NUL
  }

  predicate NoNul(t: string) {
    NUL !in t
  }

  /** strchr on a constant string: the first place of `c`; the terminator counts as the place of NUL. */
  method Strchr(s: string, c: char) returns (r: int)
    requires NoNul(s)
    ensures -1 <= r <= |s|
    ensures r == -1 <==> c != NUL && c !in s
    ensures 0 <= r < |s| ==> s[r] == c && c !in s[..r]
    ensures r == |s| ==> c == NUL
  {
    for i := 0 to |s|
      invariant c !in s[..i]
    {
      if s[i] == c {
        return i;
      }
    }
    r := if c == NUL then |s| else -1;
  }

  /** strrchr: the last place of `c` in the text at the start of `a`. */
  method Strrchr(a: array<char>, ghost n: nat, c: char) returns (r: int)
    requires IsText(a[..], 0, n)
    ensures c == NUL ==> r == n
    ensures c != NUL ==> -1 <= r < n && (r >= 0 ==> a[r] == c) && forall j :: r < j < n ==> a[j] != c
  {
    var i := 0;
    r := -1;
    while a[i] != NUL
      invariant 0 <= i <= n && -1 <= r < i
      invariant r >= 0 ==> a[r] == c
      invariant forall j :: r < j < i ==> a[j] != c
      decreases n - i
    {
      if a[i] == c {
        r := i;
      }
      i := i + 1;
    }
    if c == NUL {
      r := i;
    }
  }

  /** strcat: `src` goes behind the text at the start of `dest`. */
  method Strcat(dest: array<char>, ghost n: nat, src: string)
    requires IsText(dest[..], 0, n) && n + |src| < dest.Length && NoNul(src)
    modifies dest
    ensures IsText(dest[..], 0, n + |src|) && dest[..n + |src|] == old(dest[..n]) + src
  {
    var d := 0;
    while dest[d] != NUL
      invariant 0 <= d <= n
      decreases n - d
    {
      d := d + 1;
    }
    for i := 0 to |src|
      invariant dest[..n] == old(dest[..n]) && dest[n..n + i] == src[..i]
    {
      dest[d + i] := src[i];
    }
    dest[d + |src|] := NUL;
    assert dest[..n + |src|] == dest[..n] + dest[n..n + |src|];
    assert forall i :: 0 <= i < n ==> old(dest[..n])[i] == old(dest[..])[i];
  }

  // ---------- tokens ----------

  /** The text behind its leading delimiters. */
  function Skip(t: string, delim: string): (r: string)
    ensures |r| <= |t| && r == t[|t| - |r|..]
    ensures r != [] ==> r[0] !in delim
  {
    if t != [] && t[0] in delim then Skip(t[1..], delim) else t
  }

  /** Number of leading characters that are no delimiters. */
  function Span(t: string, delim: string): (n: nat)
    ensures n <= |t| && (forall i :: 0 <= i < n ==> t[i] !in delim) && (n < |t| ==> t[n] in delim)
  {
    if t == [] || t[0] in delim then 0 else 1 + Span(t[1..], delim)
  }

  /** The maximal pieces of a text without delimiters. */
  function Tokens(t: string, delim: string): (r: seq<string>)
    decreases |t|
  {
    var u := Skip(t, delim);
    var n := Span(u, delim);
    if u == [] then [] else [u[..n]] + Tokens(u[n..], delim)
  }

  lemma SpanIs(t: string, delim: string, n: nat)
    requires n <= |t| && (forall i :: 0 <= i < n ==> t[i] !in delim) && (n < |t| ==> t[n] in delim)
    ensures Span(t, delim) == n
  {
  }

  lemma {:induction false} SkipIs(t: string, delim: string, n: nat)
    requires n <= |t| && (forall i :: 0 <= i < n ==> t[i] in delim) && (n < |t| ==> t[n] !in delim)
    ensures Skip(t, delim) == t[n..]
  {
    if n > 0 {
      SkipIs(t[1..], delim, n - 1);
      assert t[1..][n - 1..] == t[n..];
    }
  }

  /** One delimiter more or less in front does not matter. */
  lemma TokensSkipOne(t: string, delim: string)
    requires t != [] && t[0] in delim
    ensures Tokens(t, delim) == Tokens(t[1..], delim)
  {
    assert Skip(t, delim) == Skip(t[1..], delim);
  }

  /** Runs over the leading delimiters of the text at `from`, or over its leading other characters. */
  method Run(a: array<char>, from: nat, delim: string, ghost n: nat, over: bool) returns (p: nat)
    requires IsText(a[..], from, n) && NoNul(delim)
    ensures from <= p <= from + n && (a[p] == NUL <==> p == from + n)
    ensures forall i :: from <= i < p ==> (a[i] in delim <==> over)
    ensures p < from + n ==> (a[p] in delim <==> !over)
  {
    p := from;
    while a[p] != NUL
      invariant from <= p <= from + n
      invariant forall i :: from <= i < p ==> (a[i] in delim <==> over)
      decreases from + n - p
    {
      var hit := Strchr(delim, a[p]);
      if (hit != -1) != over {
        return;
      }
      p := p + 1;
    }
  }

  /** The token and the rest that lie at `p` and from `q` on. */
  lemma TokenFound(s: seq<char>, from: nat, n: nat, delim: string, p: nat, q: nat)
    requires IsText(s, from, n) && from <= p < q <= from + n
    requires forall i :: from <= i < p ==> s[i] in delim
    requires forall i :: p <= i < q ==> s[i] !in delim
    requires q < from + n ==> s[q] in delim
    ensures Tokens(s[from..from + n], delim) == [s[p..q]] + Tokens(s[q..from + n], delim)
  {
    hide Tokens;
    var t, k, m := s[from..from + n], p - from, q - from;
    assert t[m..] == t[m..n];
    assert forall i :: 0 <= i < n ==> t[i] == s[from + i];
    TokenOf(t, delim, k, m);
    SliceOfSlice(s, from, from + n, p, q);
    SliceOfSlice(s, from, from + n, q, from + n);
  }

  lemma SliceOfSlice(s: seq<char>, a: nat, b: nat, i: nat, j: nat)
    requires a <= i <= j <= b <= |s|
    ensures s[a..b][i - a..j - a] == s[i..j]
  {
    var t := s[a..b];
    forall k | 0 <= k < j - i ensures t[i - a..j - a][k] == s[i..j][k] {
      assert t[i - a + k] == s[i + k];
    }
  }

  lemma TokenOf(t: string, delim: string, k: nat, m: nat)
    requires k < m <= |t|
    requires forall i :: 0 <= i < k ==> t[i] in delim
    requires forall i :: k <= i < m ==> t[i] !in delim
    requires m < |t| ==> t[m] in delim
    ensures Tokens(t, delim) == [t[k..m]] + Tokens(t[m..], delim)
  {
    hide Tokens, Skip, Span;
    SkipIs(t, delim, k);
    var u := t[k..];
    SpanIs(u, delim, m - k);
    assert u[..m - k] == t[k..m] && u[m - k..] == t[m..];
    TokensStep(t, delim);
  }

  lemma TokensNone(t: string, delim: string)
    requires Skip(t, delim) == []
    ensures Tokens(t, delim) == []
  {
  }

  lemma TokensStep(t: string, delim: string)
    requires Skip(t, delim) != []
    ensures var u := Skip(t, delim);
            Tokens(t, delim) == [u[..Span(u, delim)]] + Tokens(u[Span(u, delim)..], delim)
  {
  }

  lemma NoToken(s: seq<char>, from: nat, n: nat, delim: string)
    requires IsText(s, from, n) && forall i :: from <= i < from + n ==> s[i] in delim
    ensures Tokens(s[from..from + n], delim) == []
  {
    SkipIs(s[from..from + n], delim, n);
  }

  /**
   strtok_r: the next token of the text at `from`, terminated in place, and where
   to go on; -1 and the end of the text when there is none.
   */
  method Strtok(a: array<char>, from: nat, delim: string, ghost n: nat)
    returns (token: int, save: nat, ghost len: nat, ghost rest: nat)
    requires IsText(a[..], from, n) && NoNul(delim)
    modifies a
    ensures save <= from + n && IsText(a[..], save, rest) && save + rest == from + n
    ensures token == -1 ==> Tokens(old(a[from..from + n]), delim) == [] && rest == 0 && a[..] == old(a[..])
    ensures token != -1 ==> from <= token && 0 < len && token + len <= save && IsText(a[..], token, len)
    ensures token != -1 ==>
              Tokens(old(a[from..from + n]), delim) == [a[token..token + len]] + Tokens(a[save..save + rest], delim)
    ensures token != -1 ==> token + len + rest <= from + n && (rest > 0 ==> token + len + 1 + rest == from + n)
  {
    hide Tokens;
    ghost var s := a[..];
    var p := Run(a, from, delim, n, true);
    if a[p] == NUL {
      NoToken(s, from, n, delim);
      assert s[from..from + n] == a[from..from + n];
      return -1, p, 0, 0;
    }
    token := p;
    p := Run(a, token, delim, from + n - token, false);
    len := p - token;
    TokenFound(s, from, n, delim, token, p);
    assert s[from..from + n] == a[from..from + n];
    if a[p] == NUL {
      save, rest := p, 0;
      assert s[p..from + n] == a[save..save + rest] && s[token..p] == a[token..p];
    } else {
      a[p] := NUL;
      save, rest := p + 1, from + n - p - 1;
      TokensSkipOne(s[p..from + n], delim);
      assert s[p..from + n][1..] == a[save..save + rest] && s[token..p] == a[token..p];
    }
  }
}
