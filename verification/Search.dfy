/** Exact searches of the record filter: Knuth-Morris-Pratt over bytes, and chunk by chunk over decoded text. */
module Search {
  import opened Bytes

  predicate Occurs<T(==)>(data: seq<T>, needle: seq<T>) {
    exists i :: 0 <= i <= |data| - |needle| && MatchAt(data, needle, i)
  }

  /** The first k elements are also the last k of the first n, and not all of them. */
  predicate Border(needle: seq<byte>, n: nat, k: nat) {
    k < n <= |needle| && needle[..k] == needle[n - k..n]
  }

  predicate LongestBorder(needle: seq<byte>, n: nat, k: nat) {
    Border(needle, n, k) && forall j | k < j < n :: !Border(needle, n, j)
  }

  lemma BorderExtends(needle: seq<byte>, n: nat, k: nat)
    requires k < n < |needle|
    ensures Border(needle, n + 1, k + 1) <==> Border(needle, n, k) && needle[k] == needle[n]
  {
    assert needle[..k + 1] == needle[..k] + [needle[k]];
    assert needle[n - k..n + 1] == needle[n - k..n] + [needle[n]];
  }

  /** Shorter borders of a prefix are borders of its longer border, and the other way round. */
  lemma BorderOfBorder(needle: seq<byte>, n: nat, k: nat, j: nat)
    requires Border(needle, n, k) && j < k
    ensures Border(needle, n, j) <==> Border(needle, k, j)
  {
    assert needle[n - k..n][k - j..] == needle[n - j..n];
    assert needle[..k][k - j..] == needle[k - j..k];
  }

  /** The first k elements of the needle end at position i of the data. */
  predicate EndsAt(data: seq<byte>, needle: seq<byte>, i: nat, k: nat) {
    k <= i <= |data| && k <= |needle| && data[i - k..i] == needle[..k]
  }

  predicate NothingLonger(data: seq<byte>, needle: seq<byte>, i: nat, k: nat, top: nat) {
    forall j | k < j <= top :: !EndsAt(data, needle, i, j)
  }

  lemma EndsAtExtends(data: seq<byte>, needle: seq<byte>, i: nat, k: nat)
    requires i < |data| && k < |needle|
    ensures EndsAt(data, needle, i + 1, k + 1) <==> EndsAt(data, needle, i, k) && data[i] == needle[k]
  {
    if k <= i {
      assert needle[..k + 1] == needle[..k] + [needle[k]];
      assert data[i - k..i + 1] == data[i - k..i] + [data[i]];
    }
  }

  lemma EndsAtBorder(data: seq<byte>, needle: seq<byte>, i: nat, k: nat, j: nat)
    requires EndsAt(data, needle, i, k) && j < k
    ensures EndsAt(data, needle, i, j) <==> Border(needle, k, j)
  {
    assert data[i - k..i][k - j..] == data[i - j..i];
    assert needle[..k][k - j..] == needle[k - j..k];
  }

  predicate Table(entries: seq<nat>, needle: seq<byte>, n: nat) {
    n <= |entries| && forall i | 0 <= i < n :: LongestBorder(needle, i + 1, entries[i])
  }

  /** The failure table: entry i is the longest proper border of the first i + 1 bytes. */
  method FailureTable(needle: seq<byte>) returns (prefix: array<nat>)
    requires needle != []
    ensures prefix.Length == |needle| && Table(prefix[..], needle, |needle|)
  {
    hide Border, LongestBorder;
    prefix := new nat[|needle|](_ => 0);
    EmptyBorder(needle, 1);
    var index: nat, matched: nat := 1, 0;
    while index < |needle|
      invariant 1 <= index <= |needle| && LongestBorder(needle, index, matched)
      invariant Table(prefix[..], needle, index)
    {
      matched := ShrinkBorder(needle, prefix, index, matched);
      GrowBorder(needle, index, matched);
      if needle[index] == needle[matched] { matched := matched + 1; }
      prefix[index] := matched;
      index := index + 1;
    }
  }

  /** The longest border that the next byte continues, or none; no border of one byte more comes from a longer one. */
  method ShrinkBorder(needle: seq<byte>, prefix: array<nat>, index: nat, start: nat) returns (matched: nat)
    requires 1 <= index < |needle| <= prefix.Length && LongestBorder(needle, index, start) && Table(prefix[..], needle, index)
    ensures matched < index && Border(needle, index, matched) && (matched == 0 || needle[index] == needle[matched])
    ensures forall k | matched < k < index :: Border(needle, index, k) ==> needle[index] != needle[k]
  {
    hide Border, LongestBorder;
    matched := start;
    LongestIsBorder(needle, index, matched);
    while matched > 0 && needle[index] != needle[matched]
      invariant matched < index && Border(needle, index, matched)
      invariant forall k | matched < k < index :: Border(needle, index, k) ==> needle[index] != needle[k]
      decreases matched
    {
      assert prefix[matched - 1] == prefix[..][matched - 1];
      NextCandidate(needle, index, matched, prefix[matched - 1]);
      matched := prefix[matched - 1];
    }
  }

  lemma LongestIsBorder(needle: seq<byte>, n: nat, k: nat)
    requires LongestBorder(needle, n, k)
    ensures k < n && Border(needle, n, k) && forall j | k < j < n :: !Border(needle, n, j)
  {
  }

  lemma EmptyBorder(needle: seq<byte>, n: nat)
    requires 1 <= n <= |needle|
    ensures Border(needle, n, 0) && (n == 1 ==> LongestBorder(needle, n, 0))
  {
  }

  lemma NextCandidate(needle: seq<byte>, index: nat, matched: nat, next: nat)
    requires index < |needle| && Border(needle, index, matched) && matched > 0 && LongestBorder(needle, matched, next)
    requires needle[index] != needle[matched]
    requires forall k | matched < k < index :: Border(needle, index, k) ==> needle[index] != needle[k]
    ensures Border(needle, index, next) && next < matched
    ensures forall k | next < k < index :: Border(needle, index, k) ==> needle[index] != needle[k]
  {
    hide Border;
    BorderBound(needle, matched, next);
    BorderOfBorder(needle, index, matched, next);
    forall k | next < k < index && Border(needle, index, k) ensures needle[index] != needle[k] {
      if k < matched { BorderOfBorder(needle, index, matched, k); }
    }
  }

  lemma BorderBound(needle: seq<byte>, n: nat, k: nat)
    requires Border(needle, n, k)
    ensures k < n <= |needle|
  {
  }

  lemma GrowBorder(needle: seq<byte>, index: nat, matched: nat)
    requires 1 <= index < |needle| && Border(needle, index, matched) && (matched == 0 || needle[index] == needle[matched])
    requires forall k | matched < k < index :: Border(needle, index, k) ==> needle[index] != needle[k]
    ensures matched < index && LongestBorder(needle, index + 1, if needle[index] == needle[matched] then matched + 1 else matched)
  {
    hide Border;
    BorderBound(needle, index, matched);
    EmptyBorder(needle, index + 1);
    var grown := if needle[index] == needle[matched] then matched + 1 else matched;
    BorderExtends(needle, index, matched);
    var n := index + 1;
    forall j | grown < j < n ensures !Border(needle, n, j) {
      BorderExtends(needle, index, j - 1);
    }
  }

  /** The result is true exactly when the needle occurs contiguously in the data. */
  method ByteSequenceIncludes(data: seq<byte>, needle: seq<byte>) returns (found: bool)
    ensures found <==> Occurs(data, needle)
  {
    hide EndsAt, Table, NothingLonger, LongestBorder, Border;
    if |needle| == 0 {
      assert MatchAt(data, needle, 0);
      return true;
    }
    if |needle| > |data| { return false; }
    var prefix := FailureTable(needle);
    var index: nat, matched: nat := 0, 0;
    NothingMatched(data, needle);
    while index < |data|
      invariant 0 <= index <= |data| && matched < |needle| && EndsAt(data, needle, index, matched)
      invariant NothingLonger(data, needle, index, matched, |needle|)
      invariant forall i | 0 <= i <= index :: !EndsAt(data, needle, i, |needle|)
      invariant |needle| <= prefix.Length && Table(prefix[..], needle, |needle|)
    {
      matched := ShrinkMatch(data, needle, prefix, index, matched);
      GrowMatch(data, needle, index, matched);
      if data[index] == needle[matched] { matched := matched + 1; }
      index := index + 1;
      if matched == |needle| {
        MatchEnds(data, needle, index);
        return true;
      }
      NoFullMatch(data, needle, index, matched);
    }
    NoOccurrence(data, needle);
    return false;
  }

  /** The longest match ending here that the next byte continues, or none. */
  method ShrinkMatch(data: seq<byte>, needle: seq<byte>, prefix: array<nat>, index: nat, start: nat) returns (matched: nat)
    requires index < |data| && start < |needle| <= prefix.Length && Table(prefix[..], needle, |needle|)
    requires EndsAt(data, needle, index, start) && NothingLonger(data, needle, index, start, |needle|)
    ensures matched < |needle| && EndsAt(data, needle, index, matched) && (matched == 0 || data[index] == needle[matched])
    ensures forall k | matched < k < |needle| :: EndsAt(data, needle, index, k) ==> data[index] != needle[k]
  {
    hide EndsAt, LongestBorder, Border;
    matched := start;
    while matched > 0 && data[index] != needle[matched]
      invariant matched < |needle| && EndsAt(data, needle, index, matched)
      invariant forall k | matched < k < |needle| :: EndsAt(data, needle, index, k) ==> data[index] != needle[k]
      decreases matched
    {
      assert prefix[matched - 1] == prefix[..][matched - 1];
      NextFallback(data, needle, index, matched, prefix[matched - 1]);
      matched := prefix[matched - 1];
    }
  }

  lemma NothingMatched(data: seq<byte>, needle: seq<byte>)
    requires needle != []
    ensures EndsAt(data, needle, 0, 0) && NothingLonger(data, needle, 0, 0, |needle|) && !EndsAt(data, needle, 0, |needle|)
  {
  }

  lemma MatchEnds(data: seq<byte>, needle: seq<byte>, i: nat)
    requires EndsAt(data, needle, i, |needle|)
    ensures Occurs(data, needle)
  {
    assert MatchAt(data, needle, i - |needle|);
  }

  lemma NoFullMatch(data: seq<byte>, needle: seq<byte>, i: nat, matched: nat)
    requires matched < |needle| && NothingLonger(data, needle, i, matched, |needle|)
    ensures !EndsAt(data, needle, i, |needle|)
  {
    hide EndsAt;
  }

  lemma NextFallback(data: seq<byte>, needle: seq<byte>, index: nat, matched: nat, next: nat)
    requires index < |data| && 0 < matched < |needle| && EndsAt(data, needle, index, matched) && LongestBorder(needle, matched, next)
    requires data[index] != needle[matched]
    requires forall k | matched < k < |needle| :: EndsAt(data, needle, index, k) ==> data[index] != needle[k]
    ensures next < matched && EndsAt(data, needle, index, next)
    ensures forall k | next < k < |needle| :: EndsAt(data, needle, index, k) ==> data[index] != needle[k]
  {
    hide Border, EndsAt;
    BorderBound(needle, matched, next);
    EndsAtBorder(data, needle, index, matched, next);
    forall k | next < k < |needle| && EndsAt(data, needle, index, k) ensures data[index] != needle[k] {
      if k < matched { EndsAtBorder(data, needle, index, matched, k); }
    }
  }

  lemma GrowMatch(data: seq<byte>, needle: seq<byte>, index: nat, matched: nat)
    requires index < |data| && matched < |needle| && EndsAt(data, needle, index, matched) && (matched == 0 || data[index] == needle[matched])
    requires forall k | matched < k < |needle| :: EndsAt(data, needle, index, k) ==> data[index] != needle[k]
    ensures var grown := if data[index] == needle[matched] then matched + 1 else matched;
            EndsAt(data, needle, index + 1, grown) && NothingLonger(data, needle, index + 1, grown, |needle|)
  {
    hide EndsAt;
    EndsEmpty(data, needle, index + 1);
    EndsAtExtends(data, needle, index, matched);
    var grown := if data[index] == needle[matched] then matched + 1 else matched;
    var i := index + 1;
    forall k | grown < k <= |needle| ensures !EndsAt(data, needle, i, k) {
      EndsAtExtends(data, needle, index, k - 1);
    }
  }

  lemma EndsEmpty(data: seq<byte>, needle: seq<byte>, i: nat)
    requires i <= |data|
    ensures EndsAt(data, needle, i, 0)
  {
  }

  lemma NoOccurrence(data: seq<byte>, needle: seq<byte>)
    requires forall i | 0 <= i <= |data| :: !EndsAt(data, needle, i, |needle|)
    ensures !Occurs(data, needle)
  {
    forall i | 0 <= i <= |data| - |needle| ensures !MatchAt(data, needle, i) {
      assert !EndsAt(data, needle, i + |needle|, |needle|);
      assert needle[..|needle|] == needle;
    }
  }

  // ----- decoded text, one chunk at a time

  /** What the search does: lower each chunk behind the overlap of the lowered text before it, and look there. */
  predicate Searched<T(==)>(lower: seq<T> -> seq<T>, overlap: seq<T>, chunks: seq<seq<T>>, search: seq<T>)
    decreases |chunks|
  {
    if chunks == [] then false
    else
      var candidate := lower(overlap + chunks[0]);
      Occurs(candidate, search) || Searched(lower, Tail(candidate, Max(0, |search| - 1)), chunks[1..], search)
  }

  /** Lowering a chunk behind its overlap gives the overlap and what the chunk adds to the lowered text. */
  predicate Seam<T(==)>(lower: seq<T> -> seq<T>, before: seq<T>, chunk: seq<T>, n: nat) {
    && lower(before) <= lower(before + chunk)
    && lower(Tail(lower(before), n) + chunk) == Tail(lower(before), n) + lower(before + chunk)[|lower(before)|..]
  }

  predicate Seamless<T(==)>(lower: seq<T> -> seq<T>, chunks: seq<seq<T>>, n: nat) {
    lower([]) == [] && forall i | 0 <= i < |chunks| :: Seam(lower, Flatten(chunks[..i]), chunks[i], n)
  }

  /**
   * The chunked search.  As long as lowering is seamless at the chunk boundaries, it finds exactly the matches in the
   * whole lowered text.  Without any chunk nothing is found, not even an empty search text.
   */
  method DecodedTextIncludes<T(==)>(lower: seq<T> -> seq<T>, chunks: seq<seq<T>>, search: seq<T>) returns (found: bool)
    ensures found == Searched(lower, [], chunks, search)
    ensures Seamless(lower, chunks, Max(0, |search| - 1)) ==>
              (found <==> chunks != [] && Occurs(lower(Flatten(chunks)), search))
  {
    hide Occurs, Seam, Flatten, Tail;
    if Seamless(lower, chunks, Max(0, |search| - 1)) { SeamlessIsExact(lower, chunks, search); }
    var overlap, n := [], Max(0, |search| - 1);
    assert chunks[0..] == chunks;
    for i := 0 to |chunks|
      invariant Searched(lower, [], chunks, search) == Searched(lower, overlap, chunks[i..], search)
    {
      assert chunks[i..][1..] == chunks[i + 1..];
      var candidate := lower(overlap + chunks[i]);
      if Occurs(candidate, search) { return true; }
      overlap := Tail(candidate, n);
    }
    return false;
  }

  lemma SeamlessIsExact<T>(lower: seq<T> -> seq<T>, chunks: seq<seq<T>>, search: seq<T>)
    requires Seamless(lower, chunks, Max(0, |search| - 1))
    ensures Searched(lower, [], chunks, search) <==> chunks != [] && Occurs(lower(Flatten(chunks)), search)
  {
    hide Occurs, Seam, Searched;
    Begin(lower, chunks, Max(0, |search| - 1));
    ExactFrom(lower, chunks, 0, search);
  }

  /** With the overlap of the lowered text so far, and no match in it, the search goes on exactly. */
  lemma {:induction false} ExactFrom<T>(lower: seq<T> -> seq<T>, chunks: seq<seq<T>>, i: nat, search: seq<T>)
    requires Seamless(lower, chunks, Max(0, |search| - 1)) && i <= |chunks|
    requires i > 0 ==> !Occurs(lower(Flatten(chunks[..i])), search)
    ensures Searched(lower, Tail(lower(Flatten(chunks[..i])), Max(0, |search| - 1)), chunks[i..], search)
            <==> chunks != [] && Occurs(lower(Flatten(chunks)), search)
    decreases |chunks| - i
  {
    hide Occurs, Seam, Flatten, Tail;
    if i == |chunks| {
      assert chunks[..i] == chunks;
    } else {
      assert chunks[i..][1..] == chunks[i + 1..];
      NextSeam(lower, chunks, i, search);
      if Occurs(lower(Flatten(chunks[..i + 1])), search) {
        FoundStays(lower, chunks, i + 1, search);
      } else {
        ExactFrom(lower, chunks, i + 1, search);
      }
    }
  }

  lemma Begin<T>(lower: seq<T> -> seq<T>, chunks: seq<seq<T>>, n: nat)
    ensures Seamless(lower, chunks, n) ==> Tail(lower(Flatten(chunks[..0])), n) == [] == lower(Flatten(chunks[..0]))
    ensures chunks[0..] == chunks
  {
  }

  /** At a seam, the candidate has a match exactly if the text so far has one, and its tail is that of the text. */
  lemma NextSeam<T>(lower: seq<T> -> seq<T>, chunks: seq<seq<T>>, i: nat, search: seq<T>)
    requires Seamless(lower, chunks, Max(0, |search| - 1)) && i < |chunks|
    requires i > 0 ==> !Occurs(lower(Flatten(chunks[..i])), search)
    ensures var n := Max(0, |search| - 1);
            var candidate, text := lower(Tail(lower(Flatten(chunks[..i])), n) + chunks[i]), lower(Flatten(chunks[..i + 1]));
            (Occurs(candidate, search) <==> Occurs(text, search)) && Tail(candidate, n) == Tail(text, n)
  {
    hide Occurs, Tail;
    var n := Max(0, |search| - 1);
    var before := Flatten(chunks[..i]);
    assert Seam(lower, before, chunks[i], n);
    assert chunks[..i + 1] == chunks[..i] + [chunks[i]];
    FlattenAppend(chunks[..i], [chunks[i]]);
    assert Flatten([chunks[i]]) == chunks[i];
    var part := lower(before + chunks[i])[|lower(before)|..];
    assert lower(before + chunks[i]) == lower(before) + part;
    AcrossBoundary(lower(before), part, search, i > 0);
    TailOfTail(lower(before), part, n);
  }

  /** What the lowered text holds after some chunks it holds after all. */
  lemma {:induction false} FoundStays<T>(lower: seq<T> -> seq<T>, chunks: seq<seq<T>>, i: nat, search: seq<T>)
    requires Seamless(lower, chunks, Max(0, |search| - 1)) && i <= |chunks| && Occurs(lower(Flatten(chunks[..i])), search)
    ensures Occurs(lower(Flatten(chunks)), search)
    decreases |chunks| - i
  {
    hide Occurs;
    if i < |chunks| {
      var before := Flatten(chunks[..i]);
      assert Seam(lower, before, chunks[i], Max(0, |search| - 1));
      assert chunks[..i + 1] == chunks[..i] + [chunks[i]];
      FlattenAppend(chunks[..i], [chunks[i]]);
      assert Flatten([chunks[i]]) == chunks[i];
      var longer := lower(before + chunks[i]);
      assert longer == lower(before) + longer[|lower(before)|..];
      OccursInLonger(lower(before), longer[|lower(before)|..], search);
      FoundStays(lower, chunks, i + 1, search);
    } else {
      assert chunks[..i] == chunks;
    }
  }

  /** Lowering character by character, with results that are lower-case themselves. */
  ghost predicate CharacterWise<T(!new)>(lower: seq<T> -> seq<T>) {
    && lower([]) == []
    && (forall a: seq<T>, b: seq<T> :: lower(a + b) == lower(a) + lower(b))
    && forall a: seq<T>, x: T :: x in lower(a) ==> lower([x]) == [x]
  }

  /** Such lowering is seamless wherever the text is cut. */
  lemma CharacterWiseIsSeamless<T(!new)>(lower: seq<T> -> seq<T>, chunks: seq<seq<T>>, n: nat)
    requires CharacterWise(lower)
    ensures Seamless(lower, chunks, n)
  {
    forall i | 0 <= i < |chunks| ensures Seam(lower, Flatten(chunks[..i]), chunks[i], n) {
      var before := Flatten(chunks[..i]);
      var overlap := Tail(lower(before), n);
      forall x | x in overlap ensures lower([x]) == [x] {
        assert x in lower(before);
      }
      LowIsFixed(lower, overlap);
      assert lower(before + chunks[i]) == lower(before) + lower(chunks[i]);
      assert lower(overlap + chunks[i]) == overlap + lower(chunks[i]);
    }
  }

  lemma {:induction false} LowIsFixed<T(!new)>(lower: seq<T> -> seq<T>, text: seq<T>)
    requires CharacterWise(lower) && forall x | x in text :: lower([x]) == [x]
    ensures lower(text) == text
  {
    if text != [] {
      LowIsFixed(lower, text[1..]);
      assert text == [text[0]] + text[1..];
      assert lower([text[0]] + text[1..]) == lower([text[0]]) + lower(text[1..]);
    }
  }

  // ----- where lowering is not seamless

  const CAPITAL_SIGMA: char := '\U{3A3}'
  const SIGMA: char := '\U{3C3}'
  const FINAL_SIGMA: char := '\U{3C2}'

  predicate Cased(c: char) {
    'a' <= c <= 'z' || 'A' <= c <= 'Z' || c == CAPITAL_SIGMA || c == SIGMA || c == FINAL_SIGMA
  }

  function LowerChar(c: char): char {
    if 'A' <= c <= 'Z' then c + ' ' else c
  }

  /** The character ends a word of two letters or more. */
  predicate EndsWord(text: string, i: nat) {
    0 < i < |text| && Cased(text[i - 1]) && !(i + 1 < |text| && Cased(text[i + 1]))
  }

  function LowerAt(text: string, i: nat): char
    requires i < |text|
  {
    if text[i] != CAPITAL_SIGMA then LowerChar(text[i]) else if EndsWord(text, i) then FINAL_SIGMA else SIGMA
  }

  /** Lowering of text in plain letters, sigmas and blanks: a capital sigma at the end of a word becomes a final one. */
  function LowerText(text: string): (low: string)
    ensures |low| == |text|
  {
    seq(|text|, i requires 0 <= i < |text| => LowerAt(text, i))
  }

  /** The 26 capitals become the small letters, a capital sigma one of the two small ones, and nothing else changes. */
  lemma Lowered(text: string, i: nat)
    requires i < |text|
    ensures var c, low := text[i] as int, LowerText(text)[i] as int;
            && (65 <= c < 91 ==> low == c + 32)
            && (c == 0x3A3 ==> low == 0x3C2 || low == 0x3C3)
            && (c < 65 || 91 <= c != 0x3A3 ==> low == c)
    ensures i > 0 && 'a' <= text[i - 1] <= 'z' && text[i] == CAPITAL_SIGMA && (i + 1 < |text| ==> text[i + 1] == ' ') ==>
              LowerText(text)[i] == FINAL_SIGMA
    ensures i > 0 && text[i] == CAPITAL_SIGMA && text[i - 1] == ' ' ==> LowerText(text)[i] == SIGMA
  {
  }

  /** A word breaks off behind a capital sigma and goes on in the next chunk. */
  predicate Breaks(before: string, chunk: string) {
    && |before| >= 2 && before[|before| - 1] == CAPITAL_SIGMA && Cased(before[|before| - 2])
    && chunk != [] && Cased(chunk[0])
  }

  predicate Unbroken(chunks: seq<string>) {
    forall i | 0 <= i < |chunks| :: !Breaks(Flatten(chunks[..i]), chunks[i])
  }

  /** The search finds exactly what the whole lowered text holds. */
  ghost predicate Exact(chunks: seq<string>, search: string) {
    Searched(LowerText, [], chunks, search) <==> chunks != [] && Occurs(LowerText(Flatten(chunks)), search)
  }

  /**
   * The search is exact for all search texts of two characters or more if and only if no chunk breaks off inside a word
   * behind a capital sigma.
   */
  lemma ExactIffUnbroken(chunks: seq<string>)
    ensures (forall search: string | |search| >= 2 :: Exact(chunks, search)) <==> Unbroken(chunks)
  {
    hide Breaks, Searched, Occurs, Flatten, Seam;
    if Unbroken(chunks) {
      forall search: string | |search| >= 2 ensures Exact(chunks, search) {
        UnbrokenIsSeamless(chunks, |search| - 1);
        SeamlessIsExact(LowerText, chunks, search);
      }
    } else {
      var i :| 0 <= i < |chunks| && Breaks(Flatten(chunks[..i]), chunks[i]);
      BrokenMisses(chunks, i);
    }
  }

  lemma UnbrokenIsSeamless(chunks: seq<string>, n: nat)
    requires n > 0 && Unbroken(chunks)
    ensures Seamless(LowerText, chunks, n)
  {
    hide Flatten, Breaks;
    assert LowerText([]) == [];
    forall i | 0 <= i < |chunks| ensures Seam(LowerText, Flatten(chunks[..i]), chunks[i], n) {
      UnbrokenSeam(Flatten(chunks[..i]), chunks[i], n);
    }
  }

  lemma UnbrokenSeam(before: string, chunk: string, n: nat)
    requires n > 0 && !Breaks(before, chunk)
    ensures Seam(LowerText, before, chunk, n)
  {
    hide Breaks, LowerAt, Low, Cased;
    var low, whole, overlap := LowerText(before), LowerText(before + chunk), Tail(LowerText(before), n);
    forall i | 0 <= i < |before| ensures low[i] == whole[i] && Low(low[i]) {
      LowIsLow(before, i);
      StaysLow(before, chunk, i);
    }
    assert low <= whole;
    if before != [] { LowIsLow(before, |before| - 1); }
    var candidate := LowerText(overlap + chunk);
    forall i | 0 <= i < |overlap| ensures candidate[i] == overlap[i] {
      LowStays(overlap + chunk, i);
    }
    forall j | |overlap| <= j < |candidate| ensures candidate[j] == whole[j - |overlap| + |low|] {
      SameAfter(overlap, before, chunk, j - |overlap|);
    }
    assert candidate == overlap + whole[|low|..];
  }

  lemma StaysLow(before: string, chunk: string, i: nat)
    requires i < |before| && !Breaks(before, chunk)
    ensures LowerAt(before, i) == LowerAt(before + chunk, i)
  {
    hide Cased;
  }

  lemma LowStays(text: string, i: nat)
    requires i < |text| && Low(text[i])
    ensures LowerAt(text, i) == text[i]
  {
    hide Cased;
  }

  /** Only the last character in front of a chunk matters for how the chunk is lowered, and only whether it is cased. */
  lemma SameAfter(a: string, b: string, chunk: string, i: nat)
    requires i < |chunk| && (a == [] <==> b == [])
    requires a != [] ==> (Cased(a[|a| - 1]) <==> Cased(b[|b| - 1]))
    ensures LowerAt(a + chunk, |a| + i) == LowerAt(b + chunk, |b| + i)
  {
    hide Cased;
  }

  predicate Low(c: char) {
    c != CAPITAL_SIGMA && LowerChar(c) == c
  }

  lemma LowIsLow(text: string, i: nat)
    requires i < |text|
    ensures Low(LowerAt(text, i)) && (Cased(LowerAt(text, i)) <==> Cased(text[i]))
  {
  }

  // ----- a broken word is missed

  /** The overlap stands for all the text before it, and a sigma that broke off is a final one. */
  predicate StandsFor(overlap: string, before: string) {
    && |overlap| == |before| && (forall i | 0 <= i < |before| :: Low(overlap[i]) && (Cased(overlap[i]) <==> Cased(before[i])))
    && (|before| >= 2 && before[|before| - 1] == CAPITAL_SIGMA && Cased(before[|before| - 2]) ==> overlap[|before| - 1] == FINAL_SIGMA)
  }

  lemma StandsForNext(overlap: string, before: string, chunk: string)
    requires StandsFor(overlap, before)
    ensures StandsFor(LowerText(overlap + chunk), before + chunk)
    ensures forall p | 0 <= p < |before| :: LowerText(overlap + chunk)[p] == overlap[p]
  {
    hide Cased;
    var text := overlap + chunk;
    forall i | 0 <= i < |text| ensures Low(LowerAt(text, i)) && (Cased(LowerAt(text, i)) <==> Cased((before + chunk)[i])) {
      LowIsLow(text, i);
    }
  }

  /** Somewhere the overlap has a final sigma and the whole text a small one. */
  predicate WrongAt(overlap: string, search: string, p: nat) {
    p < |overlap| && p < |search| && overlap[p] == FINAL_SIGMA && search[p] == SIGMA
  }

  /** With the whole text as the search text nothing is ever cut off the overlap, and the wrong sigma stays in it. */
  lemma {:induction false} WrongStays(chunks: seq<string>, overlap: string, before: string, search: string, p: nat)
    requires WrongAt(overlap, search, p) && |search| == |overlap| + |Flatten(chunks)| && StandsFor(overlap, before)
    ensures !Searched(LowerText, overlap, chunks, search)
    decreases |chunks|
  {
    hide Cased, LowerText, StandsFor;
    if chunks != [] {
      var candidate := LowerText(overlap + chunks[0]);
      StandsForNext(overlap, before, chunks[0]);
      StandsSize(overlap, before);
      assert WrongAt(candidate, search, p);
      if |candidate| < |search| {
        NotInShorter(candidate, search);
        WrongStays(chunks[1..], candidate, before + chunks[0], search, p);
      } else {
        NotElsewhere(candidate, search, p);
        TooShort(chunks[1..], Tail(candidate, |search| - 1), search);
      }
    }
  }

  lemma StandsSize(overlap: string, before: string)
    requires StandsFor(overlap, before)
    ensures |overlap| == |before|
  {
  }

  lemma NotInShorter(text: string, search: string)
    requires |text| < |search|
    ensures !Occurs(text, search)
  {
  }

  lemma NotElsewhere(text: string, search: string, p: nat)
    requires WrongAt(text, search, p) && |text| == |search|
    ensures !Occurs(text, search)
  {
    assert forall i | MatchAt(text, search, i) :: i == 0 && text[0..|text|] == text;
  }

  lemma {:induction false} TooShort(chunks: seq<string>, overlap: string, search: string)
    requires |overlap| + |Flatten(chunks)| < |search|
    ensures !Searched(LowerText, overlap, chunks, search)
    decreases |chunks|
  {
    hide LowerText;
    if chunks != [] {
      var candidate := LowerText(overlap + chunks[0]);
      NotInShorter(candidate, search);
      TooShort(chunks[1..], candidate, search);
    }
  }

  /** Up to the break the overlap stands for all the text. */
  lemma {:induction false} BrokenFrom(chunks: seq<string>, i: nat, overlap: string, before: string, search: string)
    requires i < |chunks| && Breaks(before + Flatten(chunks[..i]), chunks[i]) && StandsFor(overlap, before)
    requires search == LowerText(before + Flatten(chunks))
    ensures !Searched(LowerText, overlap, chunks, search)
    decreases i
  {
    hide Cased, LowerText, StandsFor, Breaks;
    StandsSize(overlap, before);
    if i == 0 {
      assert before + Flatten(chunks[..0]) == before;
      BreakIsWrong(overlap, before, chunks[0], Flatten(chunks[1..]));
      assert before + Flatten(chunks) == before + (chunks[0] + Flatten(chunks[1..]));
      WrongStays(chunks, overlap, before, search, |before| - 1);
    } else {
      var candidate, longer := LowerText(overlap + chunks[0]), before + chunks[0];
      StandsForNext(overlap, before, chunks[0]);
      assert chunks[..i][1..] == chunks[1..][..i - 1];
      assert before + Flatten(chunks[..i]) == longer + Flatten(chunks[1..][..i - 1]);
      assert before + Flatten(chunks) == longer + Flatten(chunks[1..]);
      BreaksLater(chunks[1..], i - 1, longer);
      NotInShorter(candidate, search);
      BrokenFrom(chunks[1..], i - 1, candidate, longer, search);
    }
  }

  lemma BreakIsWrong(overlap: string, before: string, chunk: string, more: string)
    requires Breaks(before, chunk) && StandsFor(overlap, before)
    ensures |before| >= 2 && WrongAt(overlap, LowerText(before + (chunk + more)), |before| - 1)
  {
  }

  lemma BreaksLater(chunks: seq<string>, i: nat, before: string)
    requires i < |chunks| && Breaks(before + Flatten(chunks[..i]), chunks[i])
    ensures Flatten(chunks) != []
  {
    assert chunks == chunks[..i] + chunks[i..];
    FlattenAppend(chunks[..i], chunks[i..]);
  }

  /** The search text that is missed is the whole text. */
  lemma BrokenMisses(chunks: seq<string>, i: nat)
    requires i < |chunks| && Breaks(Flatten(chunks[..i]), chunks[i])
    ensures |Flatten(chunks)| >= 2 && !Exact(chunks, LowerText(Flatten(chunks)))
  {
    hide Breaks, Cased, LowerText, Searched;
    var whole := Flatten(chunks);
    assert [] + whole == whole && [] + Flatten(chunks[..i]) == Flatten(chunks[..i]);
    BrokenFrom(chunks, i, [], [], LowerText(whole));
    BreaksSize(chunks, i);
    assert MatchAt(LowerText(whole), LowerText(whole), 0);
  }

  lemma BreaksSize(chunks: seq<string>, i: nat)
    requires i < |chunks| && Breaks(Flatten(chunks[..i]), chunks[i])
    ensures |Flatten(chunks)| >= 2
  {
    assert chunks == chunks[..i] + chunks[i..];
    FlattenAppend(chunks[..i], chunks[i..]);
  }

  /** A word cut behind a capital sigma: its last letter is in the next chunk. */
  function SplitWord(letters: nat): seq<string> {
    [seq(letters, _ => 'a') + [CAPITAL_SIGMA], ['a']]
  }

  /**
   * The end of the first 64 KiB looks like the end of the word: 65,534 letters, a capital sigma of two bytes, and one more
   * letter in the next chunk.  The lowered text holds the search text, but the chunked search does not find it.
   */
  lemma FinalSigmaMissed()
    ensures var chunks, search := SplitWord(65_534), [SIGMA, 'a'];
            Occurs(LowerText(Flatten(chunks)), search) && !Searched(LowerText, [], chunks, search)
  {
    var letters: string := seq(65_534, _ => 'a');
    var chunks, search := SplitWord(65_534), [SIGMA, 'a'];
    var first := letters + [CAPITAL_SIGMA];
    assert chunks[1..] == [['a']] && [['a']][1..] == [];
    assert Flatten(chunks) == first + (['a'] + Flatten<char>([]));
    var whole := LowerText(Flatten(chunks));
    assert whole[65_534..65_536] == search;
    assert MatchAt(whole, search, 65_534);
    var candidate := LowerText([] + first);
    assert SIGMA !in candidate;
    NoSigma(candidate, search);
    assert Tail(candidate, 1) == [FINAL_SIGMA];
    var next := LowerText([FINAL_SIGMA] + ['a']);
    assert SIGMA !in next;
    NoSigma(next, search);
    var none: seq<string> := [];
    assert !Searched(LowerText, Tail(next, 1), none, search);
    assert !Searched(LowerText, [FINAL_SIGMA], [['a']], search);
    assert chunks[0] == first;
  }

  lemma NoSigma(text: string, search: string)
    requires search != [] && search[0] !in text
    ensures !Occurs(text, search)
  {
    forall i ensures !MatchAt(text, search, i) {
      if 0 <= i && i + |search| <= |text| {
        assert text[i..i + |search|][0] == text[i] != search[0];
      }
    }
  }

  function Tail<T>(s: seq<T>, n: nat): seq<T> {
    s[Max(0, |s| - n)..]
  }

  lemma TailOfTail<T>(a: seq<T>, b: seq<T>, n: nat)
    ensures Tail(Tail(a, n) + b, n) == Tail(a + b, n)
  {
  }

  lemma OccursInLonger<T>(a: seq<T>, b: seq<T>, search: seq<T>)
    requires Occurs(a, search)
    ensures Occurs(a + b, search)
  {
    var i :| 0 <= i <= |a| - |search| && MatchAt(a, search, i);
    MatchAtExtends(a, b, search, i);
  }

  /** A match that was not there before the chunk lies in the chunk and the overlap before it. */
  lemma AcrossBoundary<T>(before: seq<T>, chunk: seq<T>, search: seq<T>, searched: bool)
    requires searched ==> !Occurs(before, search)
    requires !searched ==> before == []
    ensures Occurs(Tail(before, Max(0, |search| - 1)) + chunk, search) <==> Occurs(before + chunk, search)
  {
    hide MatchAt;
    var tail := Tail(before, Max(0, |search| - 1));
    var cut := |before| - |tail|;
    var all := before + chunk;
    assert all[cut..] == tail + chunk;
    if Occurs(tail + chunk, search) {
      var i :| 0 <= i <= |tail + chunk| - |search| && MatchAt(tail + chunk, search, i);
      MatchInSuffix(all, search, cut, i);
    }
    if Occurs(all, search) {
      var i :| 0 <= i <= |all| - |search| && MatchAt(all, search, i);
      if i < cut {
        MatchAtExtends(before, chunk, search, i);
        assert false;
      }
      MatchInSuffix(all, search, cut, i - cut);
    }
  }

  lemma MatchInSuffix<T>(all: seq<T>, search: seq<T>, cut: nat, i: nat)
    requires cut <= |all|
    ensures MatchAt(all[cut..], search, i) == MatchAt(all, search, cut + i)
  {
    if cut + i + |search| <= |all| {
      assert all[cut..][i..i + |search|] == all[cut + i..cut + i + |search|];
    }
  }
}
