/** The few Python string and list primitives the handlers rely on:
    `str.lower`, `str.split()` with no separator, `" ".join`,
    `str.startswith` and `list.index`. */
module Text {
  import opened Wrappers

  /** Whitespace as `str.split()` understands it: the ASCII separators
      (tab, line feed, vertical tab, form feed, carriage return, the four
      information separators, space) and the Unicode line, paragraph and
      space separators. */
  const Whitespace: set<char> := {
    '\t', '\n', '\U{0B}', '\U{0C}', '\r', '\U{1C}', '\U{1D}', '\U{1E}', '\U{1F}', ' ',
    '\U{85}', '\U{A0}', '\U{1680}',
    '\U{2000}', '\U{2001}', '\U{2002}', '\U{2003}', '\U{2004}', '\U{2005}',
    '\U{2006}', '\U{2007}', '\U{2008}', '\U{2009}', '\U{200A}',
    '\U{2028}', '\U{2029}', '\U{202F}', '\U{205F}', '\U{3000}'
  }

  predicate IsSpace(c: char) { c in Whitespace }

  predicate IsUpper(c: char) { 'A' <= c <= 'Z' }

  /** No upper-case letter anywhere in `s`. */
  predicate NoUpper(s: string) {
    forall i :: 0 <= i < |s| ==> !IsUpper(s[i])
  }

  /** A token of `str.split()`: non-empty, no whitespace. */
  predicate IsToken(w: string) {
    |w| > 0 && forall i :: 0 <= i < |w| ==> !IsSpace(w[i])
  }

  predicate AllTokens(ws: seq<string>) {
    forall i :: 0 <= i < |ws| ==> IsToken(ws[i])
  }

  /** Canonical spacing: the only whitespace is a single ' ' with a
      non-space character on each side (so none leading, trailing or
      doubled). */
  predicate SingleSpaced(s: string) {
    forall i :: 0 <= i < |s| ==> SpacedAt(s, i)
  }

  /** Position `i` of `s` is not whitespace, or is a single ' ' between
      two non-space characters. */
  predicate SpacedAt(s: string, i: nat)
    requires i < |s|
  {
    IsSpace(s[i]) ==>
      s[i] == ' ' && 0 < i < |s| - 1 && !IsSpace(s[i - 1]) && !IsSpace(s[i + 1])
  }

  function LowerChar(c: char): (d: char)
    ensures !IsUpper(d)
    ensures !IsUpper(c) ==> d == c
    ensures IsUpper(c) ==> d as int == c as int + 32
  {
    if IsUpper(c) then (c as int + 32) as char else c
  }

  /** `str.lower` on the ASCII letters. */
  function Lower(s: string): (r: string)
    ensures |r| == |s|
    ensures forall i :: 0 <= i < |s| ==> r[i] == LowerChar(s[i])
    ensures NoUpper(r)
  {
    if s == [] then [] else [LowerChar(s[0])] + Lower(s[1..])
  }

  /** Lower-casing works on each part of a concatenation separately. */
  lemma {:induction false} LowerAppend(a: string, b: string)
    ensures Lower(a + b) == Lower(a) + Lower(b)
    decreases |a|
  {
    if a == [] {
      assert a + b == b;
    } else {
      assert (a + b)[1..] == a[1..] + b;
      LowerAppend(a[1..], b);
    }
  }

  /** Lower-casing leaves a whitespace character alone. */
  lemma SpaceLower(c: char)
    requires IsSpace(c)
    ensures Lower([c]) == [c]
  {
    assert !IsUpper(c);
    assert [c][1..] == [];
  }

  /** Lower-casing leaves a whitespace character alone and works on each
      side of it separately. */
  lemma LowerAtSpace(x: string, c: char, y: string)
    requires IsSpace(c)
    ensures Lower(x + [c] + y) == Lower(x) + [c] + Lower(y)
  {
    LowerAppend(x + [c], y);
    LowerAppend(x, [c]);
    SpaceLower(c);
  }

  /** Length of the run of non-whitespace characters `s` starts with. */
  function TokenLength(s: string): (n: nat)
    ensures n <= |s|
    ensures n < |s| ==> IsSpace(s[n])
    ensures s != [] && !IsSpace(s[0]) ==> n > 0
  {
    if s != [] && !IsSpace(s[0]) then 1 + TokenLength(s[1..]) else 0
  }

  /** The run `TokenLength` measures holds no whitespace. */
  lemma {:induction false} TokenLengthNoSpace(s: string)
    ensures forall i :: 0 <= i < TokenLength(s) ==> !IsSpace(s[i])
    decreases |s|
  {
    if s != [] && !IsSpace(s[0]) {
      TokenLengthNoSpace(s[1..]);
      forall i | 0 < i < TokenLength(s)
        ensures !IsSpace(s[i])
      {
        assert s[i] == s[1..][i - 1];
      }
    }
  }

  /** The run of non-whitespace a string starts with is pinned down by the
      position of its first whitespace character. */
  lemma {:induction false} TokenLengthAt(s: string, n: nat)
    requires n <= |s|
    requires forall i :: 0 <= i < n ==> !IsSpace(s[i])
    requires n == |s| || IsSpace(s[n])
    ensures TokenLength(s) == n
    decreases n
  {
    if n > 0 {
      assert !IsSpace(s[0]);
      var t := s[1..];
      assert forall i :: 0 <= i < n - 1 ==> t[i] == s[i + 1];
      assert n - 1 == |t| || t[n - 1] == s[n];
      TokenLengthAt(t, n - 1);
    }
  }

  lemma TokensCons(w: string, ws: seq<string>)
    requires IsToken(w) && AllTokens(ws)
    ensures AllTokens([w] + ws)
  {
    forall i | 0 <= i < |[w] + ws|
      ensures IsToken(([w] + ws)[i])
    {
      if i > 0 {
        assert ([w] + ws)[i] == ws[i - 1];
      }
    }
  }

  /** `str.split()`: the maximal runs of non-whitespace characters, in
      order. */
  function Split(s: string): (ws: seq<string>)
    ensures AllTokens(ws)
    decreases |s|
  {
    if s == [] then []
    else if IsSpace(s[0]) then Split(s[1..])
    else
      var n := TokenLength(s);
      var w := s[..n];
      assert IsToken(w) by {
        TokenLengthNoSpace(s);
        assert forall i :: 0 <= i < n ==> w[i] == s[i];
      }
      var rest := Split(s[n..]);
      TokensCons(w, rest);
      [w] + rest
  }

  /** `" ".join(ws)`: the words in order with one ' ' between each two, so
      the first word begins the result. */
  function Join(ws: seq<string>): (r: string)
    ensures ws == [] ==> r == []
    ensures ws != [] ==> |ws[0]| <= |r| && r[..|ws[0]|] == ws[0]
  {
    if ws == [] then ""
    else if |ws| == 1 then ws[0]
    else ws[0] + " " + Join(ws[1..])
  }

  /** `s.startswith(prefix)`. */
  function StartsWith(s: string, prefix: string): (b: bool)
    ensures b <==> |prefix| <= |s| && forall i :: 0 <= i < |prefix| ==> s[i] == prefix[i]
  {
    |prefix| <= |s| && s[..|prefix|] == prefix
  }

  /** A string agrees with its prefix position by position. */
  lemma PrefixCharAt(s: string, prefix: string, i: nat)
    requires StartsWith(s, prefix) && i < |prefix|
    ensures s[i] == prefix[i]
  {
    assert s[..|prefix|][i] == s[i];
  }

  /** `ws.index(w)`, with `None` for the `ValueError` it raises when `w`
      is absent: the position of the FIRST occurrence. */
  function IndexOf(ws: seq<string>, w: string): (r: Option<nat>)
    ensures r.None? <==> w !in ws
    ensures r.Some? ==> r.value < |ws| && ws[r.value] == w && w !in ws[..r.value]
  {
    if ws == [] then None
    else if ws[0] == w then Some(0)
    else match IndexOf(ws[1..], w)
      case None => None
      case Some(i) => Some(i + 1)
  }

  // ---------------------------------------------------------------------
  // Split and Join are inverse on tokens and single-spaced strings

  /** A leading space does not change how a string splits. */
  lemma SplitLeadingSpace(x: string)
    ensures Split([' '] + x) == Split(x)
  {
    assert ([' '] + x)[1..] == x;
  }

  /** A string that starts with a non-space character splits into the run
      of non-space characters it starts with, followed by the split of the
      rest. */
  lemma SplitStart(s: string)
    requires s != [] && !IsSpace(s[0])
    ensures Split(s) == [s[..TokenLength(s)]] + Split(s[TokenLength(s)..])
  {
  }

  /** Splitting a string that starts with a token and a space yields that
      token followed by the split of the rest. */
  lemma SplitCons(w: string, x: string)
    requires IsToken(w)
    ensures Split(w + [' '] + x) == [w] + Split(x)
  {
    var s := w + [' '] + x;
    assert TokenLength(s) == |w| by {
      assert forall i :: 0 <= i < |w| ==> s[i] == w[i];
      TokenLengthAt(s, |w|);
    }
    assert Split(s) == [s[..|w|]] + Split(s[|w|..]) by {
      assert s[0] == w[0];
      SplitStart(s);
    }
    assert Split(s[|w|..]) == Split(x) by {
      assert s[|w|..] == [' '] + x;
      SplitLeadingSpace(x);
    }
    assert s[..|w|] == w;
  }

  /** `str.split()` recovers the tokens `" ".join` was given. */
  lemma {:induction false} SplitJoin(ws: seq<string>)
    requires AllTokens(ws)
    ensures Split(Join(ws)) == ws
  {
    if |ws| == 1 {
      var w := ws[0];
      assert IsToken(w);
      assert TokenLength(w) == |w| by {
        TokenLengthAt(w, |w|);
      }
      assert Split(w) == [w[..|w|]] + Split(w[|w|..]) by {
        SplitStart(w);
      }
      assert w[..|w|] == w && w[|w|..] == [];
    } else if |ws| >= 2 {
      var w, rest := ws[0], ws[1..];
      assert IsToken(w);
      assert AllTokens(rest) by {
        forall i | 0 <= i < |rest|
          ensures IsToken(rest[i])
        {
          assert rest[i] == ws[i + 1];
        }
      }
      assert Split(Join(rest)) == rest by {
        SplitJoin(rest);
      }
      assert Split(Join(ws)) == [w] + Split(Join(rest)) by {
        assert Join(ws) == w + [' '] + Join(rest);
        SplitCons(w, Join(rest));
      }
      assert ws == [w] + rest;
    }
  }

  /** A token splits into itself. */
  lemma SplitToken(w: string)
    requires IsToken(w)
    ensures Split(w) == [w]
  {
    assert AllTokens([w]);
    SplitJoin([w]);
  }

  /** The run of non-space characters a string starts with ends no later
      than the next whitespace character. */
  lemma TokenLengthBeforeSpace(x: string, c: char, y: string)
    requires IsSpace(c)
    ensures TokenLength(x + [c] + y) == TokenLength(x)
  {
    var s, n := x + [c] + y, TokenLength(x);
    TokenLengthNoSpace(x);
    assert forall i :: 0 <= i < n ==> s[i] == x[i];
    assert n < |x| ==> s[n] == x[n];
    TokenLengthAt(s, n);
  }

  /** The step of `SplitAtSpace` for a string that starts with a token:
      given the split after the token, the split of the whole. */
  lemma SplitAtSpaceAfterToken(x: string, c: char, y: string)
    requires IsSpace(c) && x != [] && !IsSpace(x[0])
    requires Split(x[TokenLength(x)..] + [c] + y)
          == Split(x[TokenLength(x)..]) + Split(y)
    ensures Split(x + [c] + y) == Split(x) + Split(y)
  {
    var s, n := x + [c] + y, TokenLength(x);
    assert Split(s) == [x[..n]] + Split(x[n..] + [c] + y) by {
      TokenLengthBeforeSpace(x, c, y);
      assert s[0] == x[0];
      SplitStart(s);
      assert s[..n] == x[..n];
      assert s[n..] == x[n..] + [c] + y;
    }
    assert Split(x) == [x[..n]] + Split(x[n..]) by {
      SplitStart(x);
    }
  }

  /** Any whitespace character, wherever it stands, separates what comes
      before it from what comes after it. With `SplitToken` and
      `Split("") == []` this determines `Split` on every string. */
  lemma {:induction false} SplitAtSpace(x: string, c: char, y: string)
    requires IsSpace(c)
    ensures Split(x + [c] + y) == Split(x) + Split(y)
    decreases |x|
  {
    if x == [] {
      assert (x + [c] + y)[1..] == y;
    } else if IsSpace(x[0]) {
      assert (x + [c] + y)[1..] == x[1..] + [c] + y;
      SplitAtSpace(x[1..], c, y);
    } else {
      SplitAtSpace(x[TokenLength(x)..], c, y);
      SplitAtSpaceAfterToken(x, c, y);
    }
  }

  /** Joining tokens gives a single-spaced string that starts and ends with
      a non-space character. */
  lemma {:induction false} JoinSingleSpaced(ws: seq<string>)
    requires AllTokens(ws)
    ensures SingleSpaced(Join(ws))
    ensures ws != [] ==> |Join(ws)| > 0 && !IsSpace(Join(ws)[0]) && !IsSpace(Join(ws)[|Join(ws)| - 1])
  {
    if |ws| == 1 {
      assert IsToken(ws[0]);
    } else if |ws| >= 2 {
      var w, j := ws[0], Join(ws[1..]);
      assert IsToken(w);
      assert AllTokens(ws[1..]) by {
        forall i | 0 <= i < |ws[1..]|
          ensures IsToken(ws[1..][i])
        {
          assert ws[1..][i] == ws[i + 1];
        }
      }
      JoinSingleSpaced(ws[1..]);
      var s := Join(ws);
      assert s == w + [' '] + j;
      forall i | 0 <= i < |s|
        ensures SpacedAt(s, i)
      {
        if i < |w| {
          assert s[i] == w[i];
        } else if i > |w| {
          var k := i - |w| - 1;
          assert s[i] == j[k];
          assert SpacedAt(j, k);
          if IsSpace(s[i]) {
            assert k > 0;
            assert s[i - 1] == j[k - 1];
            assert s[i + 1] == j[k + 1];
          }
        }
      }
    }
  }

  /** Cutting a string around one of its spaces and joining the two sides
      with a space gives the string back. */
  lemma Reassemble(s: string, n: nat)
    requires n < |s| && s[n] == ' '
    ensures s == s[..n] + " " + s[n + 1..]
  {
    var t := s[..n] + " " + s[n + 1..];
    assert |t| == |s|;
    forall i | 0 <= i < |s|
      ensures t[i] == s[i]
    {
    }
  }

  /** What follows a space of a single-spaced string is single-spaced. */
  lemma SingleSpacedAfter(s: string, n: nat)
    requires SingleSpaced(s)
    requires n < |s| && IsSpace(s[n])
    ensures SingleSpaced(s[n + 1..])
  {
    var rest := s[n + 1..];
    forall i | 0 <= i < |rest|
      ensures SpacedAt(rest, i)
    {
      assert rest[i] == s[n + 1 + i];
      assert SpacedAt(s, n + 1 + i);
      assert SpacedAt(s, n);
      if IsSpace(rest[i]) {
        assert rest[i - 1] == s[n + i];
        assert rest[i + 1] == s[n + 2 + i];
      }
    }
  }

  /** A single-spaced string with a space splits into its first word and
      the split of what follows that word's space. */
  lemma SplitFirstWord(s: string, n: nat)
    requires SingleSpaced(s)
    requires n == TokenLength(s) < |s|
    ensures Split(s) == [s[..n]] + Split(s[n + 1..])
    ensures Split(s[n + 1..]) != []
  {
    var rest := s[n + 1..];
    assert !IsSpace(s[0]) by {
      assert SpacedAt(s, 0);
    }
    assert n + 1 < |s| && !IsSpace(s[n + 1]) && s[n] == ' ' by {
      assert SpacedAt(s, n);
    }
    assert Split(s) == [s[..n]] + Split(s[n..]) by {
      SplitStart(s);
    }
    assert Split(s[n..]) == Split(rest) by {
      assert s[n..] == [' '] + rest;
      SplitLeadingSpace(rest);
    }
    assert Split(rest) != [] by {
      assert rest[0] == s[n + 1];
      SplitStart(rest);
    }
  }

  lemma JoinCons(w: string, ws: seq<string>)
    requires ws != []
    ensures Join([w] + ws) == w + " " + Join(ws)
  {
    assert ([w] + ws)[1..] == ws;
  }

  /** A non-empty single-spaced string without a space is one word. */
  lemma JoinSplitOneWord(s: string)
    requires SingleSpaced(s) && s != []
    requires TokenLength(s) == |s|
    ensures Join(Split(s)) == s
  {
    assert SpacedAt(s, 0);
    SplitStart(s);
    assert s[..|s|] == s && s[|s|..] == [];
  }

  /** The first word of a single-spaced string, its space and the join of
      what follows give the string back. */
  lemma JoinSplitStep(s: string, n: nat)
    requires SingleSpaced(s)
    requires n == TokenLength(s) < |s|
    requires Join(Split(s[n + 1..])) == s[n + 1..]
    ensures Join(Split(s)) == s
  {
    var w, rest := s[..n], s[n + 1..];
    SplitFirstWord(s, n);
    JoinCons(w, Split(rest));
    assert SpacedAt(s, n);
    Reassemble(s, n);
  }

  /** A single-spaced string is the join of its own split. */
  lemma {:induction false} JoinSplit(s: string)
    requires SingleSpaced(s)
    ensures Join(Split(s)) == s
    decreases |s|
  {
    if s != [] {
      var n := TokenLength(s);
      if n == |s| {
        JoinSplitOneWord(s);
      } else {
        SingleSpacedAfter(s, n);
        JoinSplit(s[n + 1..]);
        JoinSplitStep(s, n);
      }
    }
  }

  /** Every character of a join is a separating space or a character of
      one of the joined words. */
  lemma {:induction false} JoinNoUpper(ws: seq<string>)
    requires forall i :: 0 <= i < |ws| ==> NoUpper(ws[i])
    ensures NoUpper(Join(ws))
  {
    if |ws| >= 2 {
      assert forall i :: 0 <= i < |ws[1..]| ==> NoUpper(ws[1..][i]) by {
        forall i | 0 <= i < |ws[1..]|
          ensures NoUpper(ws[1..][i])
        {
          assert ws[1..][i] == ws[i + 1];
        }
      }
      JoinNoUpper(ws[1..]);
      var s := Join(ws);
      assert s == ws[0] + " " + Join(ws[1..]);
      forall i | 0 <= i < |s|
        ensures !IsUpper(s[i])
      {
        if i < |ws[0]| {
          assert s[i] == ws[0][i];
        } else if i > |ws[0]| {
          assert s[i] == Join(ws[1..])[i - |ws[0]| - 1];
        }
      }
    }
  }

  lemma NoUpperSlice(s: string, i: nat, j: nat)
    requires NoUpper(s) && i <= j <= |s|
    ensures NoUpper(s[i..j])
  {
    forall k | 0 <= k < j - i
      ensures !IsUpper(s[i..j][k])
    {
      assert s[i..j][k] == s[i + k];
    }
  }

  /** The words of a string without upper-case letters have none either. */
  lemma {:induction false} SplitNoUpper(s: string)
    requires NoUpper(s)
    ensures forall i :: 0 <= i < |Split(s)| ==> NoUpper(Split(s)[i])
    decreases |s|
  {
    if s != [] && IsSpace(s[0]) {
      NoUpperSlice(s, 1, |s|);
      assert s[1..|s|] == s[1..];
      SplitNoUpper(s[1..]);
    } else if s != [] {
      var n := TokenLength(s);
      var w, rest := s[..n], s[n..];
      assert NoUpper(w) && NoUpper(rest) by {
        NoUpperSlice(s, 0, n);
        NoUpperSlice(s, n, |s|);
        assert s[0..n] == w && s[n..|s|] == rest;
      }
      SplitNoUpper(rest);
      assert Split(s) == [w] + Split(rest);
      forall i | 0 <= i < |Split(s)|
        ensures NoUpper(Split(s)[i])
      {
        if i > 0 {
          assert Split(s)[i] == Split(rest)[i - 1];
        }
      }
    }
  }

  /** A non-empty run of the letters a to z. */
  predicate IsLowerWord(w: string) {
    |w| > 0 && forall i :: 0 <= i < |w| ==> 'a' <= w[i] <= 'z'
  }

  /** A run of lower-case letters is a token with no upper-case letter. */
  lemma LowerWord(w: string)
    requires IsLowerWord(w)
    ensures IsToken(w) && NoUpper(w)
  {
    forall i | 0 <= i < |w|
      ensures !IsSpace(w[i])
    {
      assert 'a' <= w[i] <= 'z';
    }
  }

  /** Lower-casing a string that has no upper-case letter changes nothing. */
  lemma LowerOfLower(s: string)
    requires NoUpper(s)
    ensures Lower(s) == s
  {
  }
}
