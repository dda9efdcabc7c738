/** The tokeniser `split` of Src/utility.h and the small pieces of text the
    program builds: decimal numerals and ASCII lower-casing. */
module Text {

  /** Length of the leading run of characters different from `c`. */
  function RunLength(s: string, c: char): (k: nat)
    ensures k <= |s|
    ensures forall i :: 0 <= i < k ==> s[i] != c
    ensures k == |s| || s[k] == c
  {
    if s == [] || s[0] == c then 0 else 1 + RunLength(s[1..], c)
  }

  /** The tokens of `s`: its maximal runs of characters other than `c`, left to right. */
  function Tokens(s: string, c: char): seq<string>
    decreases |s|
  {
    if s == [] then []
    else if s[0] == c then Tokens(s[1..], c)
    else
      var k := RunLength(s, c);
      [s[..k]] + Tokens(s[k..], c)
  }

  /** A run that starts at the front, contains no `c` and ends at a `c` or at the
      end of the text is the run `RunLength` measures. */
  lemma {:induction false} RunLengthOf(s: string, c: char, k: nat)
    requires k <= |s|
    requires forall i :: 0 <= i < k ==> s[i] != c
    requires k == |s| || s[k] == c
    ensures RunLength(s, c) == k
    decreases k
  {
    if k > 0 {
      RunLengthOf(s[1..], c, k - 1);
    }
  }

  /** `split`: skip the separators at `pos`, extend `end` over the next run, keep
      the run if one was found, and carry on from `end`. */
  method Split(s: string, c: char) returns (tokens: seq<string>)
    ensures tokens == Tokens(s, c)
  {
    tokens := [];
    var pos := 0;
    while pos < |s|
      invariant pos <= |s| + 1
      invariant pos <= |s| ==> tokens + Tokens(s[pos..], c) == Tokens(s, c)
      invariant pos > |s| ==> tokens == Tokens(s, c)
      decreases |s| + 1 - pos
    {
      pos := SkipSeparators(s, c, pos);
      var end := RunEnd(s, c, pos);
      if pos < |s| {
        TakeRun(s, c, pos, end);
        tokens := tokens + [s[pos..end]];
      } else {
        assert Tokens(s[pos..], c) == [];
      }
      pos := end;
    }
  }

  /** The first loop of `split`: step over the separators at `pos`. */
  method SkipSeparators(s: string, c: char, pos: nat) returns (p: nat)
    requires pos <= |s|
    ensures pos <= p <= |s|
    ensures p == |s| || s[p] != c
    ensures Tokens(s[p..], c) == Tokens(s[pos..], c)
  {
    p := pos;
    while p < |s| && s[p] == c
      invariant pos <= p <= |s|
      invariant Tokens(s[p..], c) == Tokens(s[pos..], c)
    {
      SkipSeparator(s, c, p);
      p := p + 1;
    }
  }

  /** The do-while of `split`: move one past `pos`, then on to the next separator
      or the end of the text. */
  method RunEnd(s: string, c: char, pos: nat) returns (end: nat)
    requires pos <= |s|
    ensures pos < end <= |s| + 1
    ensures pos < |s| ==> end <= |s| && (end == |s| || s[end] == c)
    ensures forall i :: pos < i < end && i < |s| ==> s[i] != c
  {
    end := pos + 1;
    while end < |s| && s[end] != c
      invariant pos < end <= |s| + 1
      invariant pos < |s| ==> end <= |s|
      invariant forall i :: pos < i < end && i < |s| ==> s[i] != c
    {
      end := end + 1;
    }
  }

  /** A separator at `pos` contributes no token. */
  lemma SkipSeparator(s: string, c: char, pos: nat)
    requires pos < |s| && s[pos] == c
    ensures Tokens(s[pos..], c) == Tokens(s[pos + 1..], c)
  {
    assert s[pos..][1..] == s[pos + 1..];
  }

  /** A run from `pos` up to a separator or the end is the next token. */
  lemma TakeRun(s: string, c: char, pos: nat, end: nat)
    requires pos < end <= |s|
    requires s[pos] != c
    requires forall i :: pos <= i < end ==> s[i] != c
    requires end == |s| || s[end] == c
    ensures Tokens(s[pos..], c) == [s[pos..end]] + Tokens(s[end..], c)
  {
    RunLengthOf(s[pos..], c, end - pos);
    assert s[pos..][..end - pos] == s[pos..end];
    assert s[pos..][end - pos..] == s[end..];
  }

  /** Every token is non-empty and free of the separator. */
  lemma {:induction false} TokensWellFormed(s: string, c: char)
    ensures forall t :: t in Tokens(s, c) ==> t != [] && c !in t
    decreases |s|
  {
    if s == [] {
    } else if s[0] == c {
      TokensWellFormed(s[1..], c);
    } else {
      var k := RunLength(s, c);
      TokensWellFormed(s[k..], c);
      assert forall t :: t in Tokens(s, c) ==> t == s[..k] || t in Tokens(s[k..], c);
    }
  }

  /** A text made only of separators, the empty text among them, has no token. */
  lemma {:induction false} TokensOfSeparators(s: string, c: char)
    requires forall i :: 0 <= i < |s| ==> s[i] == c
    ensures Tokens(s, c) == []
    decreases |s|
  {
    if s != [] {
      TokensOfSeparators(s[1..], c);
    }
  }

  /** A non-empty word without the separator is a single token. */
  lemma SingleToken(w: string, c: char)
    requires w != [] && c !in w
    ensures Tokens(w, c) == [w]
  {
    RunLengthOf(w, c, |w|);
    assert w[..|w|] == w;
  }

  /** Tokens glued back together with one separator between neighbours. */
  function Join(tokens: seq<string>, c: char): (r: string)
    ensures tokens == [] ==> r == []
  {
    if tokens == [] then []
    else if |tokens| == 1 then tokens[0]
    else tokens[0] + [c] + Join(tokens[1..], c)
  }

  /** Joining two non-empty lists puts one separator between their joins. */
  lemma {:induction false} JoinAppend(a: seq<string>, b: seq<string>, c: char)
    requires a != [] && b != []
    ensures Join(a + b, c) == Join(a, c) + [c] + Join(b, c)
  {
    if |a| > 1 {
      JoinAppend(a[1..], b, c);
      assert (a + b)[1..] == a[1..] + b;
    }
  }

  /** `s` with leading and trailing separators dropped and every run of separators
      collapsed to one, defined character by character: a non-separator is kept,
      and followed by one separator when the next character is a separator and a
      non-separator comes later. */
  function Squeeze(s: string, c: char): string {
    if s == [] then []
    else if s[0] == c then Squeeze(s[1..], c)
    else
      var rest := Squeeze(s[1..], c);
      if |s| > 1 && s[1] == c && rest != [] then [s[0], c] + rest else [s[0]] + rest
  }

  /** One separator in front of a non-empty text; nothing in front of an empty one. */
  function Glue(r: string, c: char): string {
    if r == [] then [] else [c] + r
  }

  /** Squeezing a text that starts with a run of `k` non-separators keeps the run
      and glues it to the squeezed remainder. */
  lemma {:induction false} SqueezeRun(s: string, c: char, k: nat)
    requires 0 < k <= |s|
    requires forall i :: 0 <= i < k ==> s[i] != c
    requires k == |s| || s[k] == c
    ensures Squeeze(s, c) == s[..k] + Glue(Squeeze(s[k..], c), c)
    decreases k
  {
    if k == 1 {
      if |s| > 1 {
        assert s[1..] == s[k..];
      }
    } else {
      SqueezeRun(s[1..], c, k - 1);
      assert s[1..][k - 1..] == s[k..];
      assert s[..k] == [s[0]] + s[1..][..k - 1];
    }
  }

  /** Joining the tokens with single separators gives the squeezed text: the tokens
      are exactly the separator-free runs of `s`, in order. */
  lemma {:induction false} JoinTokens(s: string, c: char)
    ensures Join(Tokens(s, c), c) == Squeeze(s, c)
    decreases |s|
  {
    if s == [] {
    } else if s[0] == c {
      JoinTokens(s[1..], c);
    } else {
      var k := RunLength(s, c);
      var rest := s[k..];
      SqueezeRun(s, c, k);
      JoinTokens(rest, c);
      if rest != [] {
        assert rest[0] == c;
        assert Tokens(rest, c) == Tokens(rest[1..], c);
        assert Squeeze(rest, c) == Squeeze(rest[1..], c);
      }
      var ts := Tokens(s, c);
      assert ts == [s[..k]] + Tokens(rest, c);
      assert ts[1..] == Tokens(rest, c);
      if Tokens(rest, c) != [] {
        TokensWellFormed(rest, c);
        assert Tokens(rest, c)[0] in Tokens(rest, c);
        assert Join(Tokens(rest, c), c) != [];
        assert Join(ts, c) == s[..k] + [c] + Join(Tokens(rest, c), c);
      }
    }
  }

  /** A separator cuts the text in two: the tokens of the whole are the tokens of
      the part before it followed by the tokens of the part after it. */
  lemma {:induction false} TokensConcat(x: string, c: char, y: string)
    ensures Tokens(x + [c] + y, c) == Tokens(x, c) + Tokens(y, c)
    decreases |x|
  {
    var s := x + [c] + y;
    if x == [] {
      assert s[1..] == y;
    } else if x[0] == c {
      assert s[1..] == x[1..] + [c] + y;
      TokensConcat(x[1..], c, y);
    } else {
      var k := RunLength(x, c);
      RunLengthOf(s, c, k);
      assert s[..k] == x[..k];
      assert s[k..] == x[k..] + [c] + y;
      TokensConcat(x[k..], c, y);
    }
  }

  /** Splitting words joined by single separators gives the words back, when none
      of them is empty or holds the separator. */
  lemma {:induction false} SplitJoin(words: seq<string>, c: char)
    requires forall i :: 0 <= i < |words| ==> words[i] != [] && c !in words[i]
    ensures Tokens(Join(words, c), c) == words
    decreases |words|
  {
    if |words| == 1 {
      SingleToken(words[0], c);
    } else if |words| > 1 {
      SingleToken(words[0], c);
      SplitJoin(words[1..], c);
      TokensConcat(words[0], c, Join(words[1..], c));
      assert words == [words[0]] + words[1..];
    }
  }

  /** A non-empty text without a space. */
  predicate Word(w: string) {
    w != [] && ' ' !in w
  }

  /** Appending a space and a word appends one token. */
  lemma AppendWord(x: string, w: string)
    requires Word(w)
    ensures Tokens(x + " " + w, ' ') == Tokens(x, ' ') + [w]
  {
    TokensConcat(x, ' ', w);
    SingleToken(w, ' ');
  }

  /** The decimal digit of `d`. */
  function Digit(d: nat): (ch: char)
    requires d < 10
    ensures '0' <= ch <= '9'
  {
    "0123456789"[d]
  }

  /** The decimal numeral of `n`, most significant digit first, with no padding. */
  function NatToString(n: nat): (s: string)
    ensures s != []
    ensures forall ch :: ch in s ==> '0' <= ch <= '9'
  {
    if n < 10 then [Digit(n)] else NatToString(n / 10) + [Digit(n % 10)]
  }

  /** The numeral of an integer, with a leading '-' when it is negative. */
  function IntToString(n: int): (s: string)
    ensures s != [] && ' ' !in s
  {
    if n >= 0 then NatToString(n) else "-" + NatToString(-n)
  }

  /** The text of an integer starts with '-' exactly when the integer is negative,
      and the rest is the numeral of its magnitude. */
  lemma IntToStringSign(n: int)
    ensures IntToString(n)[0] == '-' <==> n < 0
    ensures n < 0 ==> IntToString(n)[1..] == NatToString(-n)
  {
    if n >= 0 {
      var digits := NatToString(n);
      assert digits[0] in digits;
    }
  }

  /** The value a numeral denotes. */
  function Value(s: string): nat
    requires forall ch :: ch in s ==> '0' <= ch <= '9'
  {
    if s == [] then 0
    else
      var init, last := s[..|s| - 1], s[|s| - 1];
      assert last in s;
      assert forall ch :: ch in init ==> ch in s;
      10 * Value(init) + (last - '0') as nat
  }

  /** Reading a written numeral back gives the number. */
  lemma {:induction false} NatToStringValue(n: nat)
    ensures Value(NatToString(n)) == n
    decreases n
  {
    if n < 10 {
      assert "0123456789"[n] - '0' == n as char;
    } else {
      NatToStringValue(n / 10);
      var s := NatToString(n);
      assert s[..|s| - 1] == NatToString(n / 10);
      assert "0123456789"[n % 10] - '0' == (n % 10) as char;
    }
  }

  /** `tolower` on one character, which only touches 'A'..'Z'. */
  function LowerChar(ch: char): (r: char)
    ensures 'A' <= ch <= 'Z' ==> 'a' <= r <= 'z' && r as int == ch as int + 32
    ensures !('A' <= ch <= 'Z') ==> r == ch
  {
    if 'A' <= ch <= 'Z' then (ch as int + 32) as char else ch
  }

  /** The loop of `main` that applies `tolower` to the extension one index at a
      time. */
  function Lower(s: string): (r: string)
    ensures |r| == |s|
    ensures forall i :: 0 <= i < |s| ==> r[i] == LowerChar(s[i])
  {
    if s == [] then [] else [LowerChar(s[0])] + Lower(s[1..])
  }
}
