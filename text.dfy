/** The string helpers of the program: trimming, quote removal, the two
    tokenisers of the standard stream library that the program leans on
    (`getline` with a delimiter and `>>` on whitespace), `split`, the
    lower-casing loops, the title-word normaliser, the year extraction of
    a release date and `stoi`. Characters are the "C" locale's: the
    classification predicates only know ASCII. */
module Text {

  datatype Option<T> = None | Some(value: T)

  /** The six characters `trim` and `>>` treat as blank: " \t\n\r\f\v". */
  predicate IsSpace(c: char) {
    c == ' ' || c == '\t' || c == '\n' || c == '\r' || c == '\U{000C}' || c == '\U{000B}'
  }

  predicate AllSpace(s: string) {
    forall i :: 0 <= i < |s| ==> IsSpace(s[i])
  }

  predicate NoSpace(s: string) {
    forall i :: 0 <= i < |s| ==> !IsSpace(s[i])
  }

  /** s with its leading blanks removed. */
  function TrimLeft(s: string): (r: string)
    ensures |r| <= |s| && r == s[|s| - |r|..]
    ensures AllSpace(s[..|s| - |r|])
    ensures r == [] || !IsSpace(r[0])
  {
    if s != [] && IsSpace(s[0]) then
      var r := TrimLeft(s[1..]);
      TrimLeftStep(s, r);
      r
    else s
  }

  lemma {:induction false} TrimLeftStep(s: string, r: string)
    requires s != [] && IsSpace(s[0]) && |r| <= |s| - 1
    requires r == s[1..][|s| - 1 - |r|..] && AllSpace(s[1..][..|s| - 1 - |r|])
    ensures r == s[|s| - |r|..] && AllSpace(s[..|s| - |r|])
  {
    assert s[..|s| - |r|] == [s[0]] + s[1..][..|s| - 1 - |r|];
  }

  /** s with its trailing blanks removed. */
  function TrimRight(s: string): (r: string)
    ensures |r| <= |s| && r == s[..|r|]
    ensures AllSpace(s[|r|..])
    ensures r == [] || !IsSpace(r[|r| - 1])
  {
    if s != [] && IsSpace(s[|s| - 1]) then
      var r := TrimRight(s[..|s| - 1]);
      TrimRightStep(s, r);
      r
    else s
  }

  lemma {:induction false} TrimRightStep(s: string, r: string)
    requires s != [] && IsSpace(s[|s| - 1]) && |r| <= |s| - 1
    requires r == s[..|s| - 1][..|r|] && AllSpace(s[..|s| - 1][|r|..])
    ensures r == s[..|r|] && AllSpace(s[|r|..])
  {
    assert s[|r|..] == s[..|s| - 1][|r|..] + [s[|s| - 1]];
  }

  /** `trim`: the part of s from its first to its last non-blank
      character, or "" when s holds no non-blank character. */
  function Trim(s: string): (r: string)
    ensures r == [] <==> AllSpace(s)
    ensures r == [] || (!IsSpace(r[0]) && !IsSpace(r[|r| - 1]))
  {
    var l := TrimLeft(s);
    assert s == s[..|s| - |l|] + l;
    TrimRight(l)
  }

  /** What Trim removes is blank and what it keeps is one piece of s: s is
      blanks, then Trim(s), then blanks. */
  lemma {:induction false} TrimInfix(s: string)
    ensures exists i :: 0 <= i <= i + |Trim(s)| <= |s| && Trim(s) == s[i..i + |Trim(s)|]
                        && AllSpace(s[..i]) && AllSpace(s[i + |Trim(s)|..])
  {
    InfixOf(s, TrimLeft(s), Trim(s));
  }

  /** A blank-free suffix l of s and a blank-free prefix r of l make r an
      infix of s between blanks. */
  lemma {:induction false} InfixOf(s: string, l: string, r: string)
    requires |l| <= |s| && l == s[|s| - |l|..] && AllSpace(s[..|s| - |l|])
    requires |r| <= |l| && r == l[..|r|] && AllSpace(l[|r|..])
    ensures exists i :: 0 <= i <= i + |r| <= |s| && r == s[i..i + |r|]
                        && AllSpace(s[..i]) && AllSpace(s[i + |r|..])
  {
    var i := |s| - |l|;
    SliceOfSlice(s, i, |r|);
    assert 0 <= i <= i + |r| <= |s| && r == s[i..i + |r|] && AllSpace(s[..i]) && AllSpace(s[i + |r|..]);
  }

  lemma {:induction false} SliceOfSlice<T>(s: seq<T>, i: int, n: int)
    requires 0 <= i <= i + n <= |s|
    ensures s[i..][..n] == s[i..i + n] && s[i..][n..] == s[i + n..]
  {
  }

  /** Trim is determined by its contract: whatever is blanks, then a piece
      that starts and ends with a non-blank character, then blanks, trims
      to that piece. */
  lemma {:induction false} TrimOf(p: string, m: string, q: string)
    requires AllSpace(p) && AllSpace(q)
    requires m == [] || (!IsSpace(m[0]) && !IsSpace(m[|m| - 1]))
    ensures Trim(p + m + q) == m
  {
    if m == [] {
      BlanksOnly(p, q);
    } else {
      TrimLeftOf(p, m + q);
      TrimRightOf(m, q);
      TrimThrough(p, m, q);
    }
  }

  lemma {:induction false} BlanksOnly(p: string, q: string)
    requires AllSpace(p) && AllSpace(q)
    ensures AllSpace(p + [] + q)
  {
    assert p + [] + q == p + q;
  }

  /** Trim is TrimRight after TrimLeft, on a string given in three parts. */
  lemma {:induction false} TrimThrough(p: string, m: string, q: string)
    requires TrimLeft(p + (m + q)) == m + q && TrimRight(m + q) == m
    ensures Trim(p + m + q) == m
  {
    Associative(p, m, q);
    TrimIs(p + m + q);
  }

  lemma {:induction false} Associative<T>(a: seq<T>, b: seq<T>, c: seq<T>)
    ensures a + b + c == a + (b + c)
  {
  }

  lemma {:induction false} TrimIs(s: string)
    ensures Trim(s) == TrimRight(TrimLeft(s))
  {
  }

  lemma {:induction false} TrimLeftOf(p: string, t: string)
    requires AllSpace(p) && (t == [] || !IsSpace(t[0]))
    ensures TrimLeft(p + t) == t
  {
    if p != [] {
      assert (p + t)[1..] == p[1..] + t;
      TrimLeftOf(p[1..], t);
    }
  }

  lemma {:induction false} TrimRightOf(t: string, q: string)
    requires AllSpace(q) && (t == [] || !IsSpace(t[|t| - 1]))
    ensures TrimRight(t + q) == t
  {
    if q != [] {
      assert (t + q)[..|t + q| - 1] == t + q[..|q| - 1];
      TrimRightOf(t, q[..|q| - 1]);
    }
  }

  /** Trimming twice trims no more than trimming once. */
  lemma {:induction false} TrimIdempotent(s: string)
    ensures Trim(Trim(s)) == Trim(s)
  {
    TrimOf([], Trim(s), []);
    assert [] + Trim(s) + [] == Trim(s);
  }

  /** `removeQuotes`: a string that starts and ends with '"' loses both
      quotes. A lone '"' is such a string, and `substr(1, npos)` of it is
      "". Every other string is returned unchanged. */
  function RemoveQuotes(s: string): (r: string)
    ensures Quoted(s) && |s| >= 2 ==> s == ['"'] + r + ['"']
    ensures Quoted(s) && |s| == 1 ==> r == []
    ensures !Quoted(s) ==> r == s
  {
    if Quoted(s) then
      if |s| == 1 then [] else s[1..|s| - 1]
    else s
  }

  predicate Quoted(s: string) {
    s != [] && s[0] == '"' && s[|s| - 1] == '"'
  }

  /** RemoveQuotes undoes quoting, and strips nothing but the quotes. */
  lemma {:induction false} RemoveQuotesOfQuoted(m: string)
    ensures RemoveQuotes(['"'] + m + ['"']) == m
  {
    assert Quoted(['"'] + m + ['"']);
  }

  /** The pieces of s between occurrences of the delimiter d, including the
      empty pieces before a leading, after a trailing and between two
      adjacent delimiters. */
  function Segments(s: string, d: char): (r: seq<string>)
    ensures |r| >= 1
    ensures forall k :: 0 <= k < |r| ==> d !in r[k]
  {
    if s == [] then [[]]
    else
      var rest := Segments(s[1..], d);
      if s[0] == d then [[]] + rest
      else [[s[0]] + rest[0]] + rest[1..]
  }

  /** The pieces ts glued back together with d between neighbours. */
  function Join(ts: seq<string>, d: char): (r: string)
    requires |ts| >= 1
  {
    if |ts| == 1 then ts[0] else ts[0] + [d] + Join(ts[1..], d)
  }

  /** Segments loses nothing: joining the pieces gives back s. */
  lemma {:induction false} JoinSegments(s: string, d: char)
    ensures Join(Segments(s, d), d) == s
  {
    if s != [] {
      JoinSegments(s[1..], d);
      var rest := Segments(s[1..], d);
      if s[0] != d {
        if |rest| == 1 {
          assert [[s[0]] + rest[0]] + rest[1..] == [[s[0]] + rest[0]];
        } else {
          assert ([[s[0]] + rest[0]] + rest[1..])[1..] == rest[1..];
        }
      } else {
        assert ([[]] + rest)[1..] == rest;
      }
    }
  }

  /** Segments is the inverse of Join on pieces free of the delimiter. */
  lemma {:induction false} SegmentsJoin(ts: seq<string>, d: char)
    requires |ts| >= 1 && forall k :: 0 <= k < |ts| ==> d !in ts[k]
    ensures Segments(Join(ts, d), d) == ts
    decreases |ts|, |ts[0]|
  {
    var t := ts[0];
    if t == [] {
      if |ts| > 1 {
        SegmentsJoin(ts[1..], d);
        assert Join(ts, d) == [d] + Join(ts[1..], d);
        assert Join(ts, d)[1..] == Join(ts[1..], d);
        assert [[]] + ts[1..] == ts;
      }
    } else {
      var ts' := [t[1..]] + ts[1..];
      assert forall k :: 0 <= k < |ts'| ==> d !in ts'[k] by {
        forall k | 0 <= k < |ts'| ensures d !in ts'[k] {
          if k == 0 { assert forall c :: c in t[1..] ==> c in t; } else { assert ts'[k] == ts[k]; }
        }
      }
      SegmentsJoin(ts', d);
      assert ts'[1..] == ts[1..];
      assert [t[0]] + t[1..] == t;
      assert Join(ts, d) == [t[0]] + Join(ts', d);
      assert Join(ts, d)[1..] == Join(ts', d);
      assert t[0] != d by { assert t[0] in t; }
      assert [[t[0]] + t[1..]] + ts[1..] == ts;
    }
  }

  /** The tokens `getline(ss, token, d)` produces one after the other:
      every piece between delimiters, except that reading stops without a
      token once the stream is exhausted, so an empty line gives none and a
      trailing delimiter gives no empty last piece. */
  function GetlineTokens(s: string, d: char): (r: seq<string>)
    ensures s != [] && s[|s| - 1] == d ==> r == Segments(s, d)[..|Segments(s, d)| - 1]
    ensures s != [] && s[|s| - 1] != d ==> r == Segments(s, d)
    ensures s == [] ==> r == []
  {
    if s == [] then []
    else if s[|s| - 1] == d then Segments(s, d)[..|Segments(s, d)| - 1]
    else Segments(s, d)
  }

  /** The non-empty strings of ts, in order. */
  function NonEmpty(ts: seq<string>): (r: seq<string>)
    ensures |r| <= |ts|
    ensures forall k :: 0 <= k < |r| ==> r[k] != [] && r[k] in ts
    ensures forall k :: 0 <= k < |ts| && ts[k] != [] ==> ts[k] in r
  {
    if ts == [] then []
    else
      var last := ts[|ts| - 1];
      NonEmpty(ts[..|ts| - 1]) + (if last != [] then [last] else [])
  }

  lemma {:induction false} NonEmptyAll(ts: seq<string>)
    requires forall k :: 0 <= k < |ts| ==> ts[k] != []
    ensures NonEmpty(ts) == ts
  {
    if ts != [] {
      NonEmptyAll(ts[..|ts| - 1]);
      assert ts[..|ts| - 1] + [ts[|ts| - 1]] == ts;
    }
  }

  /** `split`: the non-empty tokens of line read with `getline` on the
      delimiter. */
  method Split(line: string, d: char) returns (tokens: seq<string>)
    ensures tokens == NonEmpty(GetlineTokens(line, d))
  {
    var pieces := GetlineTokens(line, d);
    tokens := [];
    var n := 0;
    while n < |pieces|
      invariant 0 <= n <= |pieces|
      invariant tokens == NonEmpty(pieces[..n])
    {
      assert pieces[..n + 1][..n] == pieces[..n];
      if pieces[n] != [] {
        tokens := tokens + [pieces[n]];
      }
      n := n + 1;
    }
    assert pieces[..n] == pieces;
  }

  /** split undoes joining: non-empty pieces free of the delimiter, joined
      with it, split back into the same pieces. */
  lemma {:induction false} SplitJoin(ts: seq<string>, d: char)
    requires |ts| >= 1 && forall k :: 0 <= k < |ts| ==> ts[k] != [] && d !in ts[k]
    ensures NonEmpty(GetlineTokens(Join(ts, d), d)) == ts
  {
    SegmentsJoin(ts, d);
    JoinEnds(ts, d);
    NonEmptyAll(ts);
  }

  /** A join of delimiter-free pieces whose last piece is non-empty does not
      end with the delimiter. */
  lemma {:induction false} JoinEnds(ts: seq<string>, d: char)
    requires |ts| >= 1 && ts[|ts| - 1] != [] && d !in ts[|ts| - 1]
    ensures Join(ts, d) != [] && Join(ts, d)[|Join(ts, d)| - 1] == ts[|ts| - 1][|ts[|ts| - 1]| - 1]
  {
    if |ts| > 1 {
      JoinEnds(ts[1..], d);
    }
  }

  /** The words `ss >> word` reads one after the other: the maximal runs
      of non-blank characters of s, in order. */
  function Words(s: string): (r: seq<string>)
    ensures s != [] && !IsSpace(s[0]) ==> |r| >= 1
    decreases |s|
  {
    if s == [] then []
    else if IsSpace(s[0]) then Words(s[1..])
    else if |s| == 1 || IsSpace(s[1]) then [[s[0]]] + Words(s[1..])
    else
      var r := Words(s[1..]);
      [[s[0]] + r[0]] + r[1..]
  }

  /** Non-empty strings without a blank: what `>>` reads. */
  predicate AreWords(ts: seq<string>) {
    forall k :: 0 <= k < |ts| ==> ts[k] != [] && NoSpace(ts[k])
  }

  /** Every word read is non-empty and holds no blank. */
  lemma {:induction false} WordsAreWords(s: string)
    ensures AreWords(Words(s))
    decreases |s|
  {
    if s != [] {
      WordsAreWords(s[1..]);
      var r := Words(s[1..]);
      if !IsSpace(s[0]) && !(|s| == 1 || IsSpace(s[1])) {
        var w := [s[0]] + r[0];
        assert NoSpace(w) by {
          forall i | 0 <= i < |w| ensures !IsSpace(w[i]) {
            if i > 0 { assert w[i] == r[0][i - 1]; }
          }
        }
        assert Words(s) == [w] + r[1..];
      }
    }
  }

  /** Reading words back from words joined by single spaces gives the same
      words. */
  lemma {:induction false} WordsJoin(ts: seq<string>)
    requires |ts| >= 1 && AreWords(ts)
    ensures Words(Join(ts, ' ')) == ts
  {
    if |ts| == 1 {
      WordsStep(ts[0], []);
      assert ts[0] + [] == ts[0];
    } else {
      var tail := Join(ts[1..], ' ');
      WordsStep(ts[0], [' '] + tail);
      assert Join(ts, ' ') == ts[0] + ([' '] + tail);
      assert ([' '] + tail)[1..] == tail;
      assert AreWords(ts[1..]) by {
        forall k | 0 <= k < |ts| - 1 ensures ts[1..][k] != [] && NoSpace(ts[1..][k]) {
          assert ts[1..][k] == ts[k + 1];
        }
      }
      WordsJoin(ts[1..]);
      assert ts == [ts[0]] + ts[1..];
    }
  }

  /** A word followed by a blank or by nothing is read as that word. */
  lemma {:induction false} WordsStep(w: string, rest: string)
    requires w != [] && NoSpace(w) && (rest == [] || IsSpace(rest[0]))
    ensures Words(w + rest) == [w] + Words(rest)
    decreases |w|
  {
    var s := w + rest;
    assert s[1..] == w[1..] + rest;
    if |w| > 1 {
      WordsStep(w[1..], rest);
      assert [w[0]] + w[1..] == w;
    } else {
      assert w == [w[0]] && s[1..] == rest;
      assert |s| == 1 || s[1] == rest[0];
    }
  }

  /** `tolower` in the "C" locale: only 'A'..'Z' change. */
  function Lower(c: char): (r: char)
    ensures 'A' <= c <= 'Z' ==> r as int == c as int + 32
    ensures !('A' <= c <= 'Z') ==> r == c
  {
    if 'A' <= c <= 'Z' then (c as int + 32) as char else c
  }

  /** Every character of s through Lower. */
  function LowerAll(s: string): (r: string)
    ensures |r| == |s| && forall i :: 0 <= i < |s| ==> r[i] == Lower(s[i])
  {
    if s == [] then [] else [Lower(s[0])] + LowerAll(s[1..])
  }

  predicate NoUpper(s: string) {
    forall i :: 0 <= i < |s| ==> !('A' <= s[i] <= 'Z')
  }

  /** A lower-cased string has no upper-case letter left, so lower-casing
      it again changes nothing. */
  lemma {:induction false} LowerAllIdempotent(s: string)
    ensures NoUpper(LowerAll(s)) && LowerAll(LowerAll(s)) == LowerAll(s)
  {
  }

  /** The lower-casing loop of `countWords`: one character at a time,
      appended to the result. */
  method LowerWord(word: string) returns (r: string)
    ensures r == LowerAll(word)
  {
    r := [];
    var i := 0;
    while i < |word|
      invariant 0 <= i <= |word|
      invariant r == LowerAll(word[..i])
    {
      LowerAllAppend(word[..i], word[i]);
      assert word[..i + 1] == word[..i] + [word[i]];
      r := r + [Lower(word[i])];
      i := i + 1;
    }
    assert word[..i] == word;
  }

  lemma {:induction false} LowerAllAppend(s: string, c: char)
    ensures LowerAll(s + [c]) == LowerAll(s) + [Lower(c)]
  {
  }

  lemma {:induction false} LowerAllStep(word: string, start: int, i: int)
    requires 0 <= start <= i < |word|
    ensures LowerAll(word[start..i + 1]) == LowerAll(word[start..i]) + [Lower(word[i])]
  {
    assert word[start..i + 1] == word[start..i] + [word[i]];
    LowerAllAppend(word[start..i], word[i]);
  }

  /** `isalnum` in the "C" locale. */
  predicate IsAlnum(c: char) {
    ('a' <= c <= 'z') || ('A' <= c <= 'Z') || ('0' <= c <= '9')
  }

  predicate NoAlnum(s: string) {
    forall i :: 0 <= i < |s| ==> !IsAlnum(s[i])
  }

  predicate AllAlnum(s: string) {
    forall i :: 0 <= i < |s| ==> IsAlnum(s[i])
  }

  /** The first maximal run of letters and digits in w ("" when there is
      none). */
  function FirstRun(w: string): (r: string)
    ensures AllAlnum(r) && |r| <= |w|
    ensures r == [] <==> NoAlnum(w)
  {
    if w == [] then []
    else if IsAlnum(w[0]) then AlnumRun(w)
    else FirstRun(w[1..])
  }

  function AlnumRun(w: string): (r: string)
    ensures AllAlnum(r) && |r| <= |w| && r == w[..|r|]
    ensures |r| == |w| || !IsAlnum(w[|r|])
  {
    if w != [] && IsAlnum(w[0]) then [w[0]] + AlnumRun(w[1..]) else []
  }

  /** The title-word normaliser: the first run of letters and digits of a
      word, lower-cased; leading punctuation is skipped and everything from
      the first non-alphanumeric character after the run is dropped. */
  function Normalise(w: string): (r: string)
    ensures |r| <= |w| && AllAlnum(r) && NoUpper(r)
    ensures r == [] <==> NoAlnum(w)
  {
    LowerAll(FirstRun(w))
  }

  /** FirstRun is determined by the split of w into non-alphanumeric
      characters, the run, and a remainder that does not continue it. */
  lemma {:induction false} FirstRunOf(p: string, m: string, rest: string)
    requires NoAlnum(p) && AllAlnum(m) && m != [] && (rest == [] || !IsAlnum(rest[0]))
    ensures FirstRun(p + m + rest) == m
  {
    if p != [] {
      assert (p + m + rest)[1..] == p[1..] + m + rest;
      FirstRunOf(p[1..], m, rest);
    } else {
      assert p + m + rest == m + rest;
      AlnumRunOf(m, rest);
    }
  }

  lemma {:induction false} AlnumRunOf(m: string, rest: string)
    requires AllAlnum(m) && (rest == [] || !IsAlnum(rest[0]))
    ensures AlnumRun(m + rest) == m
  {
    if m != [] {
      assert (m + rest)[1..] == m[1..] + rest;
      AlnumRunOf(m[1..], rest);
      assert [m[0]] + m[1..] == m;
    }
  }

  /** Normalising a normalised word changes nothing. */
  lemma {:induction false} NormaliseIdempotent(w: string)
    ensures Normalise(Normalise(w)) == Normalise(w)
  {
    var r := Normalise(w);
    if r != [] {
      FirstRunOf([], r, []);
      assert [] + r + [] == r;
      LowerAllIdempotent(FirstRun(w));
    }
  }

  /** The normalising loop: append each alphanumeric character lower-cased;
      at the first other character after something has been kept, stop. */
  method NormaliseWord(word: string) returns (r: string)
    ensures r == Normalise(word)
  {
    r := [];
    ghost var start := 0;
    var i := 0;
    while i < |word|
      invariant 0 <= start <= i <= |word|
      invariant forall q :: 0 <= q < start ==> !IsAlnum(word[q])
      invariant forall q :: start <= q < i ==> IsAlnum(word[q])
      invariant r == LowerAll(word[start..i])
      invariant r == [] ==> start == i
    {
      var c := word[i];
      if IsAlnum(c) {
        LowerAllStep(word, start, i);
        r := r + [Lower(c)];
      } else if r != [] {
        NormaliseAt(word, start, i);
        return;
      } else {
        start := i + 1;
      }
      i := i + 1;
    }
    NormaliseAt(word, start, i);
  }

  /** Normalise in terms of positions: when word[..start] holds no letter or
      digit and word[start..end] is a run of them that ends there, the
      normalised word is that run lower-cased. */
  lemma {:induction false} NormaliseAt(word: string, start: int, end: int)
    requires 0 <= start <= end <= |word|
    requires forall q :: 0 <= q < start ==> !IsAlnum(word[q])
    requires forall q :: start <= q < end ==> IsAlnum(word[q])
    requires end == |word| || !IsAlnum(word[end])
    requires start == end ==> end == |word|
    ensures Normalise(word) == LowerAll(word[start..end])
  {
    if start < end {
      var p, m, rest := word[..start], word[start..end], word[end..];
      assert NoAlnum(p) && AllAlnum(m) && (rest == [] || !IsAlnum(rest[0])) by {
        assert forall q :: 0 <= q < |p| ==> p[q] == word[q];
        assert forall q :: 0 <= q < |m| ==> m[q] == word[start + q];
      }
      assert p + m + rest == word;
      FirstRunOf(p, m, rest);
    } else {
      assert NoAlnum(word);
    }
  }

  /** The characters of s after its last '/', or all of s when it has
      none. */
  function AfterLastSlash(s: string): (r: string)
    ensures |r| <= |s| && r == s[|s| - |r|..] && '/' !in r
    ensures |r| == |s| || s[|s| - |r| - 1] == '/'
  {
    if s == [] then []
    else if s[|s| - 1] == '/' then []
    else AfterLastSlash(s[..|s| - 1]) + [s[|s| - 1]]
  }

  /** The year loop of `countTitleWordsByYear`: walk back from the last
      character, prepending each one, until a '/' is met. */
  method YearString(date: string) returns (y: string)
    ensures y == AfterLastSlash(date)
  {
    y := [];
    var i := |date| - 1;
    while i >= 0
      invariant -1 <= i < |date|
      invariant y == date[i + 1..] && '/' !in y
    {
      if date[i] == '/' {
        AfterLastSlashOf(date[..i], y);
        assert date[..i] + ['/'] + y == date;
        return;
      }
      assert date[i..] == [date[i]] + y;
      y := [date[i]] + y;
      i := i - 1;
    }
    assert y == date;
    AfterLastSlashNone(date);
  }

  /** Whatever precedes the last '/' does not matter. */
  lemma {:induction false} AfterLastSlashOf(p: string, y: string)
    requires '/' !in y
    ensures AfterLastSlash(p + ['/'] + y) == y
    decreases |y|
  {
    if y != [] {
      var s := p + ['/'] + y;
      assert s[..|s| - 1] == p + ['/'] + y[..|y| - 1];
      assert '/' !in y[..|y| - 1] by { assert forall c :: c in y[..|y| - 1] ==> c in y; }
      AfterLastSlashOf(p, y[..|y| - 1]);
      assert y[..|y| - 1] + [y[|y| - 1]] == y;
    } else {
      assert p + ['/'] + y == p + ['/'];
    }
  }

  /** A string of no '/' is its own year part. */
  lemma {:induction false} AfterLastSlashNone(s: string)
    requires '/' !in s
    ensures AfterLastSlash(s) == s
  {
    if s != [] {
      assert '/' !in s[..|s| - 1] by { assert forall c :: c in s[..|s| - 1] ==> c in s; }
      AfterLastSlashNone(s[..|s| - 1]);
      assert s[..|s| - 1] + [s[|s| - 1]] == s;
    }
  }

  const IntMin := -2147483648
  const IntMax := 2147483647

  predicate IsDigit(c: char) {
    '0' <= c <= '9'
  }

  predicate AllDigits(s: string) {
    forall i :: 0 <= i < |s| ==> IsDigit(s[i])
  }

  /** The longest prefix of s made of decimal digits. */
  function DigitRun(s: string): (r: string)
    ensures |r| <= |s| && r == s[..|r|] && AllDigits(r)
    ensures |r| == |s| || !IsDigit(s[|r|])
  {
    if s != [] && IsDigit(s[0]) then [s[0]] + DigitRun(s[1..]) else []
  }

  /** The number a string of decimal digits denotes. */
  function DecimalValue(ds: string): (v: nat)
    requires AllDigits(ds)
  {
    if ds == [] then 0
    else DecimalValue(ds[..|ds| - 1]) * 10 + (ds[|ds| - 1] as int - '0' as int)
  }

  /** `stoi`: skip blanks, read an optional sign and then as many digits as
      there are; whatever follows is ignored. No digit at all throws
      invalid_argument and a value outside the 32-bit range throws
      out_of_range: both are None here. */
  function Stoi(s: string): (r: Option<int>)
    ensures r.Some? ==> IntMin <= r.value <= IntMax
    ensures r.Some? ==> DigitRun(Unsigned(TrimLeft(s))) != []
  {
    var t := TrimLeft(s);
    var negative := t != [] && t[0] == '-';
    var ds := DigitRun(Unsigned(t));
    if ds == [] then None
    else
      var m: int := DecimalValue(ds);
      var v := if negative then -m else m;
      if IntMin <= v <= IntMax then Some(v) else None
  }

  /** t without its sign character, if it has one. */
  function Unsigned(t: string): string {
    if t != [] && (t[0] == '+' || t[0] == '-') then t[1..] else t
  }

  /** The decimal rendering of n, without leading zeros. */
  function Decimal(n: nat): (r: string)
    ensures r != [] && AllDigits(r)
  {
    if n < 10 then [('0' as int + n) as char]
    else Decimal(n / 10) + [('0' as int + n % 10) as char]
  }

  lemma {:induction false} DecimalValueOf(n: nat)
    ensures DecimalValue(Decimal(n)) == n
  {
    var r := Decimal(n);
    if n >= 10 {
      DecimalValueOf(n / 10);
      assert r[..|r| - 1] == Decimal(n / 10);
    }
  }

  lemma {:induction false} DigitRunAll(ds: string)
    requires AllDigits(ds)
    ensures DigitRun(ds) == ds
  {
    if ds != [] {
      DigitRunAll(ds[1..]);
      assert [ds[0]] + ds[1..] == ds;
    }
  }

  /** The digit run of digits followed by a non-digit is those digits. */
  lemma {:induction false} DigitRunBefore(ds: string, rest: string)
    requires AllDigits(ds) && (rest == [] || !IsDigit(rest[0]))
    ensures DigitRun(ds + rest) == ds
  {
    if ds != [] {
      DigitRunBefore(ds[1..], rest);
      assert (ds + rest)[1..] == ds[1..] + rest;
      assert [ds[0]] + ds[1..] == ds;
    }
  }

  /** An optional sign before digits: the text starts with a non-blank, is
      negative exactly when the sign is '-', and drops to the digits. */
  lemma {:induction false} SignLead(sign: string, digits: string)
    requires digits != [] && IsDigit(digits[0])
    requires sign == [] || sign == ['+'] || sign == ['-']
    ensures var t := sign + digits;
      && t != [] && !IsSpace(t[0])
      && (t[0] == '-' <==> sign == ['-'])
      && Unsigned(t) == digits
  {
    var t := sign + digits;
    if sign == [] {
      assert t == digits;
    } else {
      assert t[0] == sign[0] && t[1..] == digits;
    }
  }

  /** stoi skips leading blanks, reads an optional sign and the digits
      after it, and ignores whatever follows the digits: a number in the
      32-bit range written that way reads back with its sign. */
  lemma {:induction false} StoiSigned(blanks: string, sign: string, n: nat, rest: string)
    requires AllSpace(blanks)
    requires sign == [] || sign == ['+'] || sign == ['-']
    requires rest == [] || !IsDigit(rest[0])
    requires if sign == ['-'] then n <= -IntMin else n <= IntMax
    ensures Stoi(blanks + sign + Decimal(n) + rest) == Some(if sign == ['-'] then -(n as int) else n as int)
  {
    var d := Decimal(n);
    var t := sign + (d + rest);
    assert blanks + sign + d + rest == blanks + t by {
      Associative(blanks + sign, d, rest);
      Associative(blanks, sign, d + rest);
    }
    SignLead(sign, d + rest);
    TrimLeftOf(blanks, t);
    assert TrimLeft(blanks + t) == t;
    DigitRunBefore(d, rest);
    assert DigitRun(Unsigned(t)) == d;
    DecimalValueOf(n);
    assert DecimalValue(d) == n;
  }

  /** A string of digits alone is read as the number it denotes, when that
      number fits in 32 bits. */
  lemma {:induction false} StoiDigits(s: string)
    requires s != [] && AllDigits(s) && DecimalValue(s) <= IntMax
    ensures Stoi(s) == Some(DecimalValue(s))
  {
    DigitFirst(s);
    DigitRunAll(s);
  }

  /** A string that starts with a digit has no blanks to skip and no sign. */
  lemma {:induction false} DigitFirst(s: string)
    requires s != [] && IsDigit(s[0])
    ensures TrimLeft(s) == s && Unsigned(s) == s
  {
  }

  /** stoi reads back every non-negative 32-bit value from its decimal
      rendering. */
  lemma {:induction false} StoiDecimal(n: nat)
    requires n <= IntMax
    ensures Stoi(Decimal(n)) == Some(n)
  {
    DecimalValueOf(n);
    StoiDigits(Decimal(n));
  }
}
