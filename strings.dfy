/**
 * The pieces of Rust's `str` API that the element serialiser relies on:
 * `char::is_whitespace`, `str::trim`, `str::split_whitespace` and
 * `str::to_lowercase` (the last one for ASCII letters only).
 */
module Strings {
  import opened Wrappers

  /** `char::is_whitespace`: the code points with the Unicode White_Space property. */
  predicate IsWhitespace(c: char) {
    var n := c as int;
    || 0x09 <= n <= 0x0D
    || n == 0x20 || n == 0x85 || n == 0xA0 || n == 0x1680
    || 0x2000 <= n <= 0x200A
    || n == 0x2028 || n == 0x2029 || n == 0x202F || n == 0x205F || n == 0x3000
  }

  predicate NoWhitespace(s: string) {
    forall i :: 0 <= i < |s| ==> !IsWhitespace(s[i])
  }

  predicate AllWhitespace(s: string) {
    forall i :: 0 <= i < |s| ==> IsWhitespace(s[i])
  }

  /** `str::trim_start`: the suffix left after dropping the leading whitespace. */
  function TrimStart(s: string): string {
    if s == [] || !IsWhitespace(s[0]) then s else TrimStart(s[1..])
  }

  /** `str::trim_end`: the prefix left after dropping the trailing whitespace. */
  function TrimEnd(s: string): string {
    if s == [] || !IsWhitespace(s[|s| - 1]) then s else TrimEnd(s[..|s| - 1])
  }

  /** `trim_start` drops exactly the leading whitespace: what remains is a suffix that starts with non-whitespace. */
  lemma {:induction false} TrimStartSpec(s: string)
    ensures var r := TrimStart(s);
      && |r| <= |s| && r == s[|s| - |r|..]
      && AllWhitespace(s[..|s| - |r|])
      && (r == [] || !IsWhitespace(r[0]))
  {
    if s != [] && IsWhitespace(s[0]) {
      TrimStartSpec(s[1..]);
      var r := TrimStart(s);
      assert s[1..][|s| - 1 - |r|..] == s[|s| - |r|..];
    } else {
      assert s[..0] == [];
    }
  }

  /** `trim_end` drops exactly the trailing whitespace: what remains is a prefix that ends with non-whitespace. */
  lemma {:induction false} TrimEndSpec(s: string)
    ensures var r := TrimEnd(s);
      && |r| <= |s| && r == s[..|r|]
      && AllWhitespace(s[|r|..])
      && (r == [] || !IsWhitespace(r[|r| - 1]))
  {
    if s != [] && IsWhitespace(s[|s| - 1]) {
      TrimEndSpec(s[..|s| - 1]);
      var r := TrimEnd(s);
      assert s[..|s| - 1][..|r|] == s[..|r|];
      assert forall i :: 0 <= i < |s| - 1 - |r| ==> s[|r|..][i] == s[..|s| - 1][|r|..][i];
    } else {
      assert s[|s|..] == [];
    }
  }

  /** `str::trim`. */
  function Trim(s: string): string {
    TrimEnd(TrimStart(s))
  }

  /** `str::trim` gives the empty string exactly for all-whitespace input, and otherwise starts and ends with non-whitespace. */
  lemma TrimSpec(s: string)
    ensures Trim(s) <= TrimStart(s)
    ensures Trim(s) == [] <==> AllWhitespace(s)
    ensures Trim(s) != [] ==> !IsWhitespace(Trim(s)[0]) && !IsWhitespace(Trim(s)[|Trim(s)| - 1])
  {
    var t := TrimStart(s);
    TrimStartSpec(s);
    TrimEndSpec(t);
    if t == [] {
      assert s[..|s|] == s;
    } else {
      assert !IsWhitespace(s[|s| - |t|]);
    }
  }

  /** Every part is non-empty and holds no whitespace. */
  predicate AllWords(parts: seq<string>) {
    forall i :: 0 <= i < |parts| ==> parts[i] != [] && NoWhitespace(parts[i])
  }

  /**
   * The scan behind `str::split_whitespace`: `word` is the run of
   * non-whitespace characters read so far, and each whitespace character
   * (or the end of the input) closes a non-empty run.
   */
  function SplitFrom(s: string, word: string): seq<string>
    decreases |s|
  {
    if s == [] then
      if word == [] then [] else [word]
    else if IsWhitespace(s[0]) then
      if word == [] then SplitFrom(s[1..], []) else [word] + SplitFrom(s[1..], [])
    else
      SplitFrom(s[1..], word + [s[0]])
  }

  /** `str::split_whitespace`: the maximal runs of non-whitespace characters, in order. */
  function SplitWhitespace(s: string): seq<string> {
    SplitFrom(s, [])
  }

  lemma {:induction false} SplitFromGivesWords(s: string, word: string)
    requires NoWhitespace(word)
    ensures AllWords(SplitFrom(s, word))
    decreases |s|
  {
    if s != [] {
      if IsWhitespace(s[0]) {
        SplitFromGivesWords(s[1..], []);
        var rest := SplitFrom(s[1..], []);
        if word != [] {
          assert forall i :: 1 <= i < |rest| + 1 ==> ([word] + rest)[i] == rest[i - 1];
        }
      } else {
        var w := word + [s[0]];
        assert forall i :: 0 <= i < |w| ==> w[i] == if i < |word| then word[i] else s[0];
        SplitFromGivesWords(s[1..], w);
      }
    }
  }

  /** Every piece `split_whitespace` yields is non-empty and holds no whitespace. */
  lemma SplitGivesWords(s: string)
    ensures AllWords(SplitWhitespace(s))
  {
    SplitFromGivesWords(s, []);
  }

  /** Reading a run of non-whitespace characters only extends the current run. */
  lemma {:induction false} SplitFromWord(w: string, rest: string, word: string)
    requires NoWhitespace(w)
    ensures SplitFrom(w + rest, word) == SplitFrom(rest, word + w)
    decreases |w|
  {
    if w == [] {
      assert w + rest == rest && word + w == word;
    } else {
      assert (w + rest)[0] == w[0] && !IsWhitespace(w[0]);
      assert (w + rest)[1..] == w[1..] + rest;
      SplitFromWord(w[1..], rest, word + [w[0]]);
      assert word + [w[0]] + w[1..] == word + w;
    }
  }

  /** Skipping whitespace between runs never yields a piece. */
  lemma {:induction false} SplitFromBlank(b: string, rest: string)
    requires AllWhitespace(b)
    ensures SplitFrom(b + rest, []) == SplitFrom(rest, [])
    decreases |b|
  {
    if b == [] {
      assert b + rest == rest;
    } else {
      assert (b + rest)[0] == b[0];
      assert (b + rest)[1..] == b[1..] + rest;
      SplitFromBlank(b[1..], rest);
    }
  }

  /**
   * Separators between words: each is whitespace only, and every one but the
   * last (which stands for the trailing whitespace) is non-empty.
   */
  predicate Separators(seps: seq<string>) {
    forall i :: 0 <= i < |seps| ==> AllWhitespace(seps[i]) && (i < |seps| - 1 ==> seps[i] != [])
  }

  /** Each part followed by its separator. */
  function Separated(parts: seq<string>, seps: seq<string>): string
    requires |parts| == |seps|
  {
    if parts == [] then [] else parts[0] + seps[0] + Separated(parts[1..], seps[1..])
  }

  lemma {:induction false} SplitFromSeparated(parts: seq<string>, seps: seq<string>)
    requires |parts| == |seps| && AllWords(parts) && Separators(seps)
    ensures SplitFrom(Separated(parts, seps), []) == parts
    decreases |parts|
  {
    if parts != [] {
      var rest := Separated(parts[1..], seps[1..]);
      assert Separated(parts, seps) == parts[0] + (seps[0] + rest);
      SplitFromWord(parts[0], seps[0] + rest, []);
      assert [] + parts[0] == parts[0];
      assert AllWords(parts[1..]);
      assert Separators(seps[1..]);
      SplitFromSeparated(parts[1..], seps[1..]);
      if seps[0] == [] {
        assert |parts| == 1 && seps[0] + rest == [];
      } else {
        var sep := seps[0];
        assert (sep + rest)[0] == sep[0] && IsWhitespace(sep[0]);
        assert (sep + rest)[1..] == sep[1..] + rest;
        SplitFromBlank(sep[1..], rest);
        assert [parts[0]] + parts[1..] == parts;
      }
    }
  }

  /**
   * `split_whitespace` gives back the words of any text made of them with
   * any non-empty whitespace between neighbours and any whitespace (possibly
   * none) before the first and after the last.
   */
  lemma SplitJoin(lead: string, parts: seq<string>, seps: seq<string>)
    requires AllWhitespace(lead) && AllWords(parts)
    requires |seps| == |parts| && Separators(seps)
    ensures SplitWhitespace(lead + Separated(parts, seps)) == parts
  {
    SplitFromBlank(lead, Separated(parts, seps));
    SplitFromSeparated(parts, seps);
  }

  lemma SeparatedCons(p: string, parts: seq<string>, sep: string, seps: seq<string>)
    requires |parts| == |seps|
    ensures Separated([p] + parts, [sep] + seps) == p + sep + Separated(parts, seps)
  {
    assert ([p] + parts)[1..] == parts && ([sep] + seps)[1..] == seps;
  }

  lemma SeparatorsCons(sep: string, seps: seq<string>)
    requires AllWhitespace(sep) && sep != [] && Separators(seps)
    ensures Separators([sep] + seps)
  {
    assert forall i :: 1 <= i < |seps| + 1 ==> ([sep] + seps)[i] == seps[i - 1];
  }

  lemma WhitespaceCons(c: char, b: string)
    requires IsWhitespace(c) && AllWhitespace(b)
    ensures AllWhitespace([c] + b)
  {
    assert forall i :: 1 <= i < |b| + 1 ==> ([c] + b)[i] == b[i - 1];
  }

  /** The scan, read backwards: the text read so far plus what remains is made of the pieces and whitespace. */
  lemma {:induction false} SplitFromDecomposes(s: string, word: string) returns (lead: string, seps: seq<string>)
    requires NoWhitespace(word)
    ensures AllWhitespace(lead) && (word != [] ==> lead == [])
    ensures |seps| == |SplitFrom(s, word)| && Separators(seps)
    ensures word + s == lead + Separated(SplitFrom(s, word), seps)
    decreases |s|
  {
    if s == [] {
      if word == [] {
        lead, seps := [], [];
      } else {
        lead, seps := [], [[]];
        SeparatedCons(word, [], [], []);
      }
    } else if IsWhitespace(s[0]) {
      lead, seps := DecomposeAtBlank(s, word);
    } else {
      var w := word + [s[0]];
      assert forall i :: 0 <= i < |w| ==> w[i] == if i < |word| then word[i] else s[0];
      lead, seps := SplitFromDecomposes(s[1..], w);
      assert word + s == w + s[1..];
      if word == [] {
        lead := [];
      }
    }
  }

  /** `SplitFromDecomposes` where the text goes on with whitespace. */
  lemma {:induction false} DecomposeAtBlank(s: string, word: string) returns (lead: string, seps: seq<string>)
    requires NoWhitespace(word) && s != [] && IsWhitespace(s[0])
    ensures AllWhitespace(lead) && (word != [] ==> lead == [])
    ensures |seps| == |SplitFrom(s, word)| && Separators(seps)
    ensures word + s == lead + Separated(SplitFrom(s, word), seps)
    decreases |s|, 0
  {
    var lead', seps' := SplitFromDecomposes(s[1..], []);
    var parts' := SplitFrom(s[1..], []);
    assert SplitFrom(s, word) == if word == [] then parts' else [word] + parts';
    var x := Separated(parts', seps');
    var blank := [s[0]] + lead';
    WhitespaceCons(s[0], lead');
    BlankThenRest(s, lead', x);
    if word == [] {
      lead, seps := blank, seps';
    } else {
      lead, seps := [], [blank] + seps';
      SeparatorsCons(blank, seps');
      SeparatedCons(word, parts', blank, seps');
      ConcatAssociates(word, blank, x);
    }
  }

  lemma BlankThenRest(s: string, lead: string, x: string)
    requires s != [] && [] + s[1..] == lead + x
    ensures s == [s[0]] + lead + x
  {
    assert [] + s[1..] == s[1..];
    assert s == [s[0]] + s[1..];
  }

  /**
   * Every text is whitespace, then the pieces `split_whitespace` yields,
   * each followed by whitespace (non-empty between two pieces): with
   * `SplitGivesWords` and `SplitJoin`, the pieces are exactly the text's
   * maximal non-whitespace runs and nothing but whitespace is dropped.
   */
  lemma SplitDecomposes(s: string)
    ensures exists lead, seps ::
      && AllWhitespace(lead) && |seps| == |SplitWhitespace(s)| && Separators(seps)
      && s == lead + Separated(SplitWhitespace(s), seps)
  {
    var lead, seps := SplitFromDecomposes(s, []);
    assert [] + s == s;
  }

  /** Two words with whitespace between them, and any whitespace around them, split into the two words. */
  lemma SplitTwoWords(lead: string, a: string, sep: string, b: string, trail: string)
    requires AllWhitespace(lead) && AllWhitespace(sep) && sep != [] && AllWhitespace(trail)
    requires a != [] && NoWhitespace(a) && b != [] && NoWhitespace(b)
    ensures SplitWhitespace(lead + a + sep + b + trail) == [a, b]
  {
    var parts, seps := [a, b], [sep, trail];
    SeparatedCons(b, [], trail, []);
    assert [b] + [] == [b] && [trail] + [] == [trail] && b + trail + Separated([], []) == b + trail;
    SeparatedCons(a, [b], sep, [trail]);
    assert [a] + [b] == parts && [sep] + [trail] == seps;
    SplitJoin(lead, parts, seps);
    assert lead + a + sep + b + trail == lead + Separated(parts, seps);
  }

  /** The ASCII part of `char::to_lowercase`. */
  function LowerChar(c: char): char {
    if 'A' <= c <= 'Z' then (c as int + 32) as char else c
  }

  /** `str::to_lowercase`, restricted to ASCII letters; every other character is kept. */
  function ToLower(s: string): (r: string)
    ensures |r| == |s|
    ensures forall i :: 0 <= i < |s| ==> r[i] == LowerChar(s[i])
    ensures forall i :: 0 <= i < |s| ==> !('A' <= r[i] <= 'Z')
  {
    if s == [] then [] else [LowerChar(s[0])] + ToLower(s[1..])
  }
}
