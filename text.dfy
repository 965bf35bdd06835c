/**
 * Character-level text handling shared by the board and the dictionary:
 * the whitespace classes, the "one token per character, `qu` as one token"
 * splitting, `String#chomp`, `String#downcase` on tokens and the letter test
 * of `Cell#letter=`.
 */
module Text {

  /** The four characters `Board#parse` deletes first: `[\r\n\t ]`. */
  predicate IsBlank(c: char) {
    c == '\r' || c == '\n' || c == '\t' || c == ' '
  }

  /** ASCII whitespace as Ruby's `split(" ")` skips it: the blanks, form feed and vertical tab. */
  predicate IsSpace(c: char) {
    IsBlank(c) || c == '\U{B}' || c == '\U{C}'
  }

  predicate IsUpper(c: char) { 'A' <= c <= 'Z' }

  predicate IsLower(c: char) { 'a' <= c <= 'z' }

  /** A character of the class `[abcdefghijklmnopqrstuvwxyz]` matched case-insensitively. */
  predicate IsAsciiLetter(c: char) { IsUpper(c) || IsLower(c) }

  /** `/[abcdefghijklmnopqrstuvwxyz]+/i =~ value` succeeds: the regex is unanchored, so one letter anywhere suffices. */
  predicate HasLetter(v: string) {
    exists k :: 0 <= k < |v| && IsAsciiLetter(v[k])
  }

  /** `s` with the characters `keep` rejects removed, order kept. */
  function Filter(s: string, keep: char -> bool): (r: string)
    ensures |r| <= |s|
    ensures forall k :: 0 <= k < |r| ==> keep(r[k])
  {
    if s == [] then []
    else if keep(s[0]) then
      assert s == [s[0]] + s[1..];
      [s[0]] + Filter(s[1..], keep)
    else
      assert s == [s[0]] + s[1..];
      Filter(s[1..], keep)
  }

  /** A character survives the filter exactly when it occurs in the input and is kept. */
  lemma {:induction false} FilterMembers(s: string, keep: char -> bool, c: char)
    ensures c in Filter(s, keep) <==> c in s && keep(c)
  {
    if s != [] {
      FilterMembers(s[1..], keep, c);
      assert s == [s[0]] + s[1..];
    }
  }

  /** Filtering works piecewise: the kept characters of `a + b` are those of `a` followed by those of `b`, in order. */
  lemma {:induction false} FilterAppend(a: string, b: string, keep: char -> bool)
    ensures Filter(a + b, keep) == Filter(a, keep) + Filter(b, keep)
  {
    if a == [] {
      assert a + b == b;
    } else {
      FilterAppend(a[1..], b, keep);
      assert a + b == [a[0]] + (a[1..] + b) && a == [a[0]] + a[1..];
      FilterCons(a[0], a[1..] + b, keep);
      FilterCons(a[0], a[1..], keep);
    }
  }

  /** Filtering a string that starts with `c`: `c` is kept or dropped, then the rest is filtered. */
  lemma FilterCons(c: char, t: string, keep: char -> bool)
    ensures Filter([c] + t, keep) == (if keep(c) then [c] else []) + Filter(t, keep)
  {
    var s := [c] + t;
    assert s[0] == c && s[1..] == t;
  }

  predicate NotBlank(c: char) { !IsBlank(c) }

  predicate NotSpace(c: char) { !IsSpace(c) }

  /** `string.gsub(/[\r\n\t ]/, '')`. */
  function Strip(s: string): string {
    Filter(s, NotBlank)
  }

  /** Deleting a blank only joins what was on either side of it. */
  lemma StripDropsBlank(a: string, c: char, b: string)
    requires IsBlank(c)
    ensures Strip(a + [c] + b) == Strip(a) + Strip(b)
  {
    FilterAppend(a + [c], b, NotBlank);
    FilterAppend(a, [c], NotBlank);
    FilterCons(c, [], NotBlank);
  }

  /** Text without blanks passes through unchanged. */
  lemma {:induction false} StripKeepsText(s: string)
    requires forall k :: 0 <= k < |s| ==> !IsBlank(s[k])
    ensures Strip(s) == s
  {
    if s != [] {
      StripKeepsText(s[1..]);
      FilterCons(s[0], s[1..], NotBlank);
      assert s == [s[0]] + s[1..];
    }
  }

  /**
   * `s.gsub(//, " ").gsub("q u", "qu").split(" ")`: a space goes between every
   * two characters, so every non-space character becomes a token of its own,
   * except that a `q` immediately followed by `u` (lower case only) becomes the
   * single token `"qu"`; whitespace characters vanish in the split.
   */
  function Tokenize(s: string): (r: seq<string>)
    ensures forall k :: 0 <= k < |r| ==> r[k] == "qu" || (|r[k]| == 1 && !IsSpace(r[k][0]))
  {
    if s == [] then []
    else if IsSpace(s[0]) then Tokenize(s[1..])
    else if s[0] == 'q' && |s| > 1 && s[1] == 'u' then ["qu"] + Tokenize(s[2..])
    else [[s[0]]] + Tokenize(s[1..])
  }

  /** An adjacent `q`, `u` always becomes the single token `"qu"`, whatever surrounds it. */
  lemma {:induction false} TokenizeQu(a: string, b: string)
    ensures Tokenize(a + "qu" + b) == Tokenize(a) + ["qu"] + Tokenize(b)
    decreases |a|
  {
    var s := a + "qu" + b;
    if a == [] {
      assert s[0] == 'q' && s[1] == 'u' && s[2..] == b;
      assert Tokenize(s) == ["qu"] + Tokenize(b);
    } else {
      assert s[0] == a[0] && s[1..] == a[1..] + "qu" + b;
      if IsSpace(a[0]) {
        TokenizeQu(a[1..], b);
      } else if a[0] == 'q' && |a| > 1 && a[1] == 'u' {
        assert s[1] == 'u' && s[2..] == a[2..] + "qu" + b;
        assert Tokenize(s) == ["qu"] + Tokenize(s[2..]);
        TokenizeQu(a[2..], b);
      } else {
        assert s[1] == if |a| > 1 then a[1] else 'q';
        assert Tokenize(s) == [[a[0]]] + Tokenize(s[1..]);
        assert Tokenize(a) == [[a[0]]] + Tokenize(a[1..]);
        TokenizeQu(a[1..], b);
      }
    }
  }

  /** A whitespace character only separates: a `q` and a `u` on either side of it stay two tokens. */
  lemma {:induction false} TokenizeSpace(a: string, w: char, b: string)
    requires IsSpace(w)
    ensures Tokenize(a + [w] + b) == Tokenize(a) + Tokenize(b)
    decreases |a|
  {
    var s := a + [w] + b;
    if a == [] {
      assert s[0] == w && s[1..] == b;
    } else if IsSpace(a[0]) {
      assert s[0] == a[0] && s[1..] == a[1..] + [w] + b;
      TokenizeSpace(a[1..], w, b);
    } else if a[0] == 'q' && |a| > 1 && a[1] == 'u' {
      TokenizeSpace(a[2..], w, b);
      TokenizeSpaceQu(a, w, b);
    } else {
      TokenizeSpace(a[1..], w, b);
      TokenizeSpaceSingle(a, w, b);
    }
  }

  /** The `qu` step of `TokenizeSpace`. */
  lemma TokenizeSpaceQu(a: string, w: char, b: string)
    requires IsSpace(w) && |a| > 1 && a[0] == 'q' && a[1] == 'u'
    requires Tokenize(a[2..] + [w] + b) == Tokenize(a[2..]) + Tokenize(b)
    ensures Tokenize(a + [w] + b) == Tokenize(a) + Tokenize(b)
  {
    var s := a + [w] + b;
    var y, z := Tokenize(a[2..]), Tokenize(b);
    assert Tokenize(s) == ["qu"] + (y + z) by {
      assert s[0] == 'q' && s[1] == 'u' && s[2..] == a[2..] + [w] + b;
    }
    AppendAssoc(["qu"], y, z);
  }

  /** The one-character step of `TokenizeSpace`: a `q` just before the space stays alone. */
  lemma TokenizeSpaceSingle(a: string, w: char, b: string)
    requires IsSpace(w) && |a| >= 1 && !IsSpace(a[0]) && !(a[0] == 'q' && |a| > 1 && a[1] == 'u')
    requires Tokenize(a[1..] + [w] + b) == Tokenize(a[1..]) + Tokenize(b)
    ensures Tokenize(a + [w] + b) == Tokenize(a) + Tokenize(b)
  {
    var s := a + [w] + b;
    var x, y, z := [[a[0]]], Tokenize(a[1..]), Tokenize(b);
    assert Tokenize(s) == x + (y + z) by {
      assert s[0] == a[0] && s[1..] == a[1..] + [w] + b;
      if |a| == 1 {
        assert s[1] == w;
      } else {
        assert s[1] == a[1];
      }
      TokenizeSingle(s);
    }
    TokenizeSingle(a);
    AppendAssoc(x, y, z);
  }

  lemma AppendAssoc<T>(x: seq<T>, y: seq<T>, z: seq<T>)
    ensures x + (y + z) == (x + y) + z
  {
  }

  /** A character that is neither whitespace nor the `q` of a `qu` becomes a token of its own. */
  lemma TokenizeSingle(s: string)
    requires |s| >= 1 && !IsSpace(s[0]) && !(s[0] == 'q' && |s| > 1 && s[1] == 'u')
    ensures Tokenize(s) == [[s[0]]] + Tokenize(s[1..])
  {
  }

  /** A one-character token is a character of the input. */
  lemma {:induction false} TokenCharsFromInput(s: string, t: string)
    requires t in Tokenize(s) && |t| == 1
    ensures t[0] in s
  {
    if s == [] {
    } else if IsSpace(s[0]) {
      TokenCharsFromInput(s[1..], t);
    } else if s[0] == 'q' && |s| > 1 && s[1] == 'u' {
      if t != "qu" {
        TokenCharsFromInput(s[2..], t);
      }
    } else if t != [s[0]] {
      TokenCharsFromInput(s[1..], t);
    }
  }

  /** The string spelled by a token sequence, built the way a trie builds a prefix: `word + letter`. */
  function Concat(ts: seq<string>): string {
    if ts == [] then "" else Concat(ts[..|ts| - 1]) + ts[|ts| - 1]
  }

  lemma {:induction false} ConcatCons(t: string, ts: seq<string>)
    ensures Concat([t] + ts) == t + Concat(ts)
    decreases |ts|
  {
    if ts != [] {
      var last := ts[|ts| - 1];
      assert ([t] + ts)[..|ts|] == [t] + ts[..|ts| - 1];
      ConcatCons(t, ts[..|ts| - 1]);
    }
  }

  /** Splitting and re-joining loses exactly the whitespace: the tokens spell the input with its spaces removed. */
  lemma {:induction false} TokenizeRoundTrip(s: string)
    ensures Concat(Tokenize(s)) == Filter(s, NotSpace)
  {
    if s == [] {
    } else if IsSpace(s[0]) {
      TokenizeRoundTrip(s[1..]);
    } else if s[0] == 'q' && |s| > 1 && s[1] == 'u' {
      TokenizeRoundTrip(s[2..]);
      QuRoundTrip(s);
    } else {
      TokenizeRoundTrip(s[1..]);
      ConcatCons([s[0]], Tokenize(s[1..]));
    }
  }

  /** The `qu` step of the round trip: the token `"qu"` spells the two characters it replaces. */
  lemma QuRoundTrip(s: string)
    requires |s| > 1 && s[0] == 'q' && s[1] == 'u'
    requires Concat(Tokenize(s[2..])) == Filter(s[2..], NotSpace)
    ensures Concat(Tokenize(s)) == Filter(s, NotSpace)
  {
    var rest := Tokenize(s[2..]);
    assert Tokenize(s) == ["qu"] + rest;
    ConcatCons("qu", rest);
    FilterQu(s);
  }

  /** The letters `q`, `u` are not whitespace, so both pass the filter. */
  lemma FilterQu(s: string)
    requires |s| > 1 && s[0] == 'q' && s[1] == 'u'
    ensures Filter(s, NotSpace) == "qu" + Filter(s[2..], NotSpace)
  {
    var t := s[1..];
    assert s == [s[0]] + t && t == [t[0]] + s[2..];
    FilterCons(s[0], t, NotSpace);
    FilterCons(t[0], s[2..], NotSpace);
    assert [s[0]] + ([t[0]] + Filter(s[2..], NotSpace)) == "qu" + Filter(s[2..], NotSpace);
  }

  /** ASCII `downcase` of one character: an upper-case letter becomes the lower-case letter at the same place in the alphabet. */
  function LowerChar(c: char): (r: char)
    ensures IsUpper(c) ==> IsLower(r) && r as int - 'a' as int == c as int - 'A' as int
    ensures !IsUpper(c) ==> r == c
  {
    if IsUpper(c) then (c as int - 'A' as int + 'a' as int) as char else c
  }

  /** `letter.downcase` on a token: no upper-case letter is left, and every other character stays where it was. */
  function Downcase(t: string): (r: string)
    ensures |r| == |t|
    ensures forall k :: 0 <= k < |r| ==> !IsUpper(r[k])
    ensures forall k :: 0 <= k < |t| && !IsUpper(t[k]) ==> r[k] == t[k]
    ensures forall k :: 0 <= k < |t| && IsUpper(t[k]) ==> IsLower(r[k]) && r[k] as int - 'a' as int == t[k] as int - 'A' as int
  {
    seq(|t|, k requires 0 <= k < |t| => LowerChar(t[k]))
  }

  /** `String#chomp` with the default separator: one trailing `\r\n`, `\n` or `\r` is removed. */
  function Chomp(w: string): (r: string)
    ensures |w| - 2 <= |r| <= |w| && r == w[..|r|]
    ensures forall k :: |r| <= k < |w| ==> w[k] == '\r' || w[k] == '\n'
    ensures |w| >= 1 && (w[|w| - 1] == '\n' || w[|w| - 1] == '\r') ==> |r| < |w|
    ensures |w| >= 2 && w[|w| - 2] == '\r' && w[|w| - 1] == '\n' ==> |r| == |w| - 2
    ensures |w| >= 1 && w[|w| - 1] == '\r' ==> |r| == |w| - 1
    ensures |w| >= 1 && w[|w| - 1] == '\n' && !(|w| >= 2 && w[|w| - 2] == '\r') ==> |r| == |w| - 1
  {
    var n := |w|;
    if n >= 2 && w[n - 2] == '\r' && w[n - 1] == '\n' then w[..n - 2]
    else if n >= 1 && (w[n - 1] == '\n' || w[n - 1] == '\r') then w[..n - 1]
    else w
  }
}
