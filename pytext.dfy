/**
 * The handful of Python 2 byte-string operations the rule code relies on:
 * `strip()`, `split()`, `split(sep)`, `sep.join(...)`, `isdigit()`, the
 * prefix test `s[:n] == p` and the substring test `sub in s`.
 * Whitespace is what Python 2's byte strings call whitespace.
 */
module PyText {

  /** A non-empty sequence is its first element followed by the rest. */
  lemma HeadTail<T>(s: seq<T>)
    requires s != []
    ensures s == [s[0]] + s[1..]
  {
  }

  /** The first element of `[x] + xs` is `x` and the rest is `xs`. */
  lemma ConsTail<T>(x: T, xs: seq<T>)
    ensures ([x] + xs)[0] == x && ([x] + xs)[1..] == xs
  {
  }

  predicate IsSpace(c: char)
  {
    c == ' ' || c == '\t' || c == '\n' || c == '\r' || c == '\U{B}' || c == '\U{C}'
  }

  predicate NoSpace(s: string)
  {
    forall i :: 0 <= i < |s| ==> !IsSpace(s[i])
  }

  predicate AllSpace(s: string)
  {
    forall i :: 0 <= i < |s| ==> IsSpace(s[i])
  }

  /** `s.isdigit()`: non-empty and made of decimal digits only. */
  predicate IsDigits(s: string)
  {
    |s| > 0 && forall i :: 0 <= i < |s| ==> '0' <= s[i] <= '9'
  }

  /** `s[:|p|] == p` */
  predicate StartsWith(s: string, p: string)
  {
    |p| <= |s| && s[..|p|] == p
  }

  /** `sub in s` */
  predicate Contains(s: string, sub: string)
  {
    StartsWith(s, sub) || (|s| > 0 && Contains(s[1..], sub))
  }

  /** Leading whitespace removed. */
  function TrimLeft(s: string): (r: string)
    ensures |r| <= |s| && r == s[|s| - |r|..]
    ensures r == [] || !IsSpace(r[0])
  {
    if s != [] && IsSpace(s[0]) then TrimLeft(s[1..]) else s
  }

  /** What `TrimLeft` removes is whitespace. */
  lemma {:induction false} TrimLeftRemovesSpace(s: string)
    ensures AllSpace(s[..|s| - |TrimLeft(s)|])
  {
    if s != [] && IsSpace(s[0]) {
      TrimLeftRemovesSpace(s[1..]);
      var k := |s| - |TrimLeft(s)|;
      forall i | 0 <= i < k ensures IsSpace(s[..k][i]) {
        if i > 0 { assert s[..k][i] == s[1..][..k - 1][i - 1]; }
      }
    }
  }

  /** Trailing whitespace removed. */
  function TrimRight(s: string): (r: string)
    ensures |r| <= |s| && r == s[..|r|]
    ensures r == [] || !IsSpace(r[|r| - 1])
  {
    if s != [] && IsSpace(s[|s| - 1]) then TrimRight(s[..|s| - 1]) else s
  }

  /** What `TrimRight` removes is whitespace. */
  lemma {:induction false} TrimRightRemovesSpace(s: string)
    ensures AllSpace(s[|TrimRight(s)|..])
  {
    if s != [] && IsSpace(s[|s| - 1]) {
      var init := s[..|s| - 1];
      TrimRightRemovesSpace(init);
      var r := TrimRight(init);
      assert s[|r|..] == init[|r|..] + [s[|s| - 1]];
    }
  }

  /** `s.strip()`: whitespace removed at both ends. */
  function Strip(s: string): string
  {
    TrimRight(TrimLeft(s))
  }

  /** The stripped text neither starts nor ends with whitespace. */
  lemma StripEnds(s: string)
    ensures var r := Strip(s); r == [] || (!IsSpace(r[0]) && !IsSpace(r[|r| - 1]))
  {
    var t := TrimLeft(s);
    var r := TrimRight(t);
    if r != [] { assert r[0] == t[0]; }
  }

  /** The stripped text is a slice of `s` with only whitespace around it. */
  lemma StripIsSlice(s: string)
    ensures var r := Strip(s);
      exists i :: 0 <= i <= |s| - |r| && r == s[i..i + |r|] && AllSpace(s[..i]) && AllSpace(s[i + |r|..])
  {
    var t := TrimLeft(s);
    TrimLeftRemovesSpace(s);
    TrimRightRemovesSpace(t);
    SliceBetween(s, t, TrimRight(t));
  }

  /** A prefix `r` of a suffix `t` of `s` is the slice of `s` between the parts the two cut off. */
  lemma SliceBetween(s: string, t: string, r: string)
    requires |t| <= |s| && t == s[|s| - |t|..] && |r| <= |t| && r == t[..|r|]
    requires AllSpace(s[..|s| - |t|]) && AllSpace(t[|r|..])
    ensures var i := |s| - |t|;
      0 <= i <= |s| - |r| && r == s[i..i + |r|] && AllSpace(s[..i]) && AllSpace(s[i + |r|..])
  {
    var i := |s| - |t|;
    assert t[|r|..] == s[i + |r|..];
  }

  /** Stripping leaves nothing exactly when the text is all whitespace. */
  lemma StripEmpty(s: string)
    ensures Strip(s) == [] <==> AllSpace(s)
  {
    var t := TrimLeft(s);
    var r := TrimRight(t);
    var i := |s| - |t|;
    assert t == s[i..];
    if r == [] {
      TrimLeftRemovesSpace(s);
      TrimRightRemovesSpace(t);
      forall k | 0 <= k < |s| ensures IsSpace(s[k]) {
        if k >= i { assert s[k] == t[k - i]; }
        else { assert s[k] == s[..i][k]; }
      }
    } else {
      assert s[i] == r[0];
    }
  }

  /** The longest prefix of `s` without whitespace. */
  function Word(s: string): (w: string)
    ensures |w| <= |s| && w == s[..|w|]
    ensures |w| == |s| || IsSpace(s[|w|])
  {
    if s == [] || IsSpace(s[0]) then []
    else
      var w := [s[0]] + Word(s[1..]);
      assert s == [s[0]] + s[1..];
      w
  }

  /** A word holds no whitespace. */
  lemma {:induction false} WordHasNoSpace(s: string)
    ensures NoSpace(Word(s))
  {
    if s != [] && !IsSpace(s[0]) {
      WordHasNoSpace(s[1..]);
      assert Word(s) == [s[0]] + Word(s[1..]);
    }
  }

  /** `s.split()`: the maximal runs of non-whitespace characters, in order. */
  function Tokens(s: string): seq<string>
    decreases |s|
  {
    var t := TrimLeft(s);
    if t == [] then []
    else
      var w := Word(t);
      [w] + Tokens(t[|w|..])
  }

  /** Non-empty runs of non-whitespace characters. */
  predicate AllWords(ts: seq<string>)
  {
    forall i :: 0 <= i < |ts| ==> ts[i] != [] && NoSpace(ts[i])
  }

  lemma AllWordsTail(ts: seq<string>)
    requires ts != [] && AllWords(ts)
    ensures ts[0] != [] && NoSpace(ts[0]) && AllWords(ts[1..])
  {
    forall i | 0 <= i < |ts| - 1 ensures ts[1..][i] == ts[i + 1] { }
  }

  lemma AllWordsCons(w: string, rest: seq<string>)
    requires w != [] && NoSpace(w) && AllWords(rest)
    ensures AllWords([w] + rest)
  {
    forall i | 0 < i <= |rest| ensures ([w] + rest)[i] == rest[i - 1] { }
  }

  /** Every token is a non-empty run of non-whitespace characters. */
  lemma {:induction false} TokensAreWords(s: string)
    ensures AllWords(Tokens(s))
    decreases |s|
  {
    var t := TrimLeft(s);
    if t != [] {
      var w := Word(t);
      assert w != [] by {
        assert !IsSpace(t[0]);
      }
      WordHasNoSpace(t);
      TokensAreWords(t[|w|..]);
      AllWordsCons(w, Tokens(t[|w|..]));
    }
  }

  /** `sep.join(parts)` */
  function JoinWith(parts: seq<string>, sep: string): string
  {
    if parts == [] then ""
    else if |parts| == 1 then parts[0]
    else parts[0] + sep + JoinWith(parts[1..], sep)
  }

  /** `s.split(sep)` for a one-character separator: the pieces between separators, empty ones kept. */
  function SplitOn(s: string, sep: char): (parts: seq<string>)
    ensures |parts| >= 1
    ensures forall i :: 0 <= i < |parts| ==> sep !in parts[i]
    ensures sep in s ==> |parts| >= 2
    ensures |parts[0]| <= |s| && parts[0] == s[..|parts[0]|]
    ensures |parts[0]| < |s| ==> s[|parts[0]|] == sep
  {
    if s == [] then [""]
    else
      var rest := SplitOn(s[1..], sep);
      if s[0] == sep then [""] + rest
      else
        assert s == [s[0]] + s[1..];
        [[s[0]] + rest[0]] + rest[1..]
  }

  /** Joining the pieces of a split with the separator gives back the text. */
  lemma {:induction false} JoinSplit(s: string, sep: char)
    ensures JoinWith(SplitOn(s, sep), [sep]) == s
  {
    if s != [] {
      var rest := SplitOn(s[1..], sep);
      JoinSplit(s[1..], sep);
      if s[0] == sep {
        assert SplitOn(s, sep) == [""] + rest;
        assert ([""] + rest)[1..] == rest;
      } else {
        var parts := SplitOn(s, sep);
        assert parts == [[s[0]] + rest[0]] + rest[1..];
        if |rest| == 1 {
          assert parts == [[s[0]] + rest[0]];
        } else {
          assert parts[1..] == rest[1..];
          assert JoinWith(rest, [sep]) == rest[0] + [sep] + JoinWith(rest[1..], [sep]);
        }
      }
    }
  }

  /** The piece after the first separator of `p + [sep] + rest` is the first piece of `rest`. */
  lemma {:induction false} SplitAfterFirst(p: string, sep: char, rest: string)
    requires sep !in p
    ensures |SplitOn(p + [sep] + rest, sep)| >= 2
    ensures SplitOn(p + [sep] + rest, sep)[1] == SplitOn(rest, sep)[0]
  {
    var s := p + [sep] + rest;
    if p == [] {
      assert s[1..] == rest;
    } else {
      assert s[1..] == p[1..] + [sep] + rest;
      SplitAfterFirst(p[1..], sep, rest);
    }
  }

  /** A word followed by whitespace: `Word` reads back exactly that word. */
  lemma {:induction false} WordOfPrefix(w: string, rest: string)
    requires NoSpace(w)
    requires rest == [] || IsSpace(rest[0])
    ensures Word(w + rest) == w
  {
    if w != [] {
      assert (w + rest)[1..] == w[1..] + rest;
      WordOfPrefix(w[1..], rest);
    }
  }

  /** Leading whitespace is all that `TrimLeft` removes in front of the rest. */
  lemma {:induction false} TrimLeftSkipSpace(ws: string, tail: string)
    requires AllSpace(ws)
    ensures TrimLeft(ws + tail) == TrimLeft(tail)
  {
    if ws == [] {
      assert ws + tail == tail;
    } else {
      assert (ws + tail)[0] == ws[0] && IsSpace(ws[0]);
      assert (ws + tail)[1..] == ws[1..] + tail;
      assert AllSpace(ws[1..]) by {
        forall i | 0 <= i < |ws[1..]| ensures IsSpace(ws[1..][i]) {
          assert ws[1..][i] == ws[i + 1];
        }
      }
      TrimLeftSkipSpace(ws[1..], tail);
      assert TrimLeft(ws + tail) == TrimLeft((ws + tail)[1..]);
    }
  }

  /** Leading whitespace, of any length and kind, does not change the tokens. */
  lemma TokensSkipSpace(ws: string, tail: string)
    requires AllSpace(ws)
    ensures Tokens(ws + tail) == Tokens(tail)
  {
    TrimLeftSkipSpace(ws, tail);
  }

  lemma TokensSkipOneSpace(tail: string)
    ensures Tokens(" " + tail) == Tokens(tail)
  {
    assert IsSpace(" "[0]);
    TokensSkipSpace(" ", tail);
  }

  /** A word that ends at whitespace or at the end is the first token. */
  lemma TokensCons(w: string, rest: string)
    requires w != [] && NoSpace(w)
    requires rest == [] || IsSpace(rest[0])
    ensures Tokens(w + rest) == [w] + Tokens(rest)
  {
    var s := w + rest;
    assert TrimLeft(s) == s;
    WordOfPrefix(w, rest);
    assert s[|w|..] == rest;
  }

  /** Splitting the space-joined tokens gives back the tokens. */
  lemma {:induction false} TokensOfJoin(ts: seq<string>)
    requires AllWords(ts)
    ensures Tokens(JoinWith(ts, " ")) == ts
  {
    if ts == [] {
      assert TrimLeft([]) == [];
    } else {
      AllWordsTail(ts);
      HeadTail(ts);
      if |ts| == 1 {
        TokensOfWord(ts[0]);
      } else {
        TokensOfJoinStep(ts);
        TokensOfJoin(ts[1..]);
      }
    }
  }

  /** A single word is its own only token. */
  lemma TokensOfWord(w: string)
    requires w != [] && NoSpace(w)
    ensures Tokens(w) == [w]
  {
    assert w + [] == w;
    TokensCons(w, []);
    assert TrimLeft([]) == [];
  }

  lemma TokensOfJoinStep(ts: seq<string>)
    requires |ts| >= 2 && ts[0] != [] && NoSpace(ts[0])
    ensures Tokens(JoinWith(ts, " ")) == [ts[0]] + Tokens(JoinWith(ts[1..], " "))
  {
    var tail := JoinWith(ts[1..], " ");
    assert JoinWith(ts, " ") == ts[0] + (" " + tail);
    TokensCons(ts[0], " " + tail);
    TokensSkipOneSpace(tail);
  }
}
