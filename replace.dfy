/**
 * The redaction side of src/Sensitive.php: `str_repeat` for the replacement
 * runs, and `str_replace` with parallel lists of search and replacement
 * strings, which `filter` applies to the whole text.
 */
module Replace {
  import opened Trie
  import opened Scanner

  /** `str_repeat(s, n)`: `n` copies of `s` one after the other. */
  function Repeat(s: string, n: nat): (r: string)
    ensures |r| == n * |s|
    ensures forall k :: 0 <= k < |r| ==> r[k] in s
  {
    if n == 0 then [] else s + Repeat(s, n - 1)
  }

  /** `s` occurs in `text` at offset `k`. */
  predicate OccursAt(text: string, s: string, k: nat) {
    k + |s| <= |text| && text[k..k + |s|] == s
  }

  /**
   * Replacing every occurrence of `needle` in `s` by `rep`, scanning left to
   * right and resuming after each replaced occurrence. An empty needle is
   * ignored.
   */
  function ReplaceAll(s: string, needle: string, rep: string): (r: string)
    ensures |rep| == |needle| ==> |r| == |s|
    decreases |s|
  {
    if needle == [] || |s| < |needle| then s
    else if s[..|needle|] == needle then rep + ReplaceAll(s[|needle|..], needle, rep)
    else [s[0]] + ReplaceAll(s[1..], needle, rep)
  }

  /**
   * `str_replace(search, replace, subject)` with array arguments: each search
   * string in turn is replaced everywhere in the result of the previous ones;
   * a missing replacement counts as the empty string.
   */
  function StrReplace(search: seq<string>, replace: seq<string>, subject: string): (r: string)
    ensures |replace| == |search| && (forall k :: 0 <= k < |search| ==> |replace[k]| == |search[k]|)
      ==> |r| == |subject|
    decreases |search|
  {
    if search == [] then subject
    else
      var rep := if replace != [] then replace[0] else "";
      StrReplace(search[1..], if replace != [] then replace[1..] else [],
                 ReplaceAll(subject, search[0], rep))
  }

  /** The list `search` builds beside the found words when asked to: one run of the code per matched character. */
  function ReplaceCodes(code: string, words: seq<string>): (r: seq<string>)
    ensures |r| == |words|
    ensures forall k :: 0 <= k < |r| ==> |r[k]| == |words[k]| * |code|
  {
    seq(|words|, k requires 0 <= k < |words| => Repeat(code, |words[k]|))
  }

  lemma ReplaceCodesSnoc(code: string, words: seq<string>, w: string)
    ensures ReplaceCodes(code, words + [w]) == ReplaceCodes(code, words) + [Repeat(code, |w|)]
  {
  }

  /** What `filter` returns: the text itself when nothing is found, else the text with every found word replaced. */
  function FilterText(trie: TrieMap, disturbs: seq<string>, code: string, text: string): (r: string)
    ensures |code| == 1 ==> |r| == |text|
  {
    var words := SearchWords(trie, disturbs, text);
    if words == [] then text else StrReplace(words, ReplaceCodes(code, words), text)
  }

  /** A text in which the needle does not occur is left as it is. */
  lemma {:induction false} ReplaceAllAbsent(s: string, needle: string, rep: string)
    requires forall k :: 0 <= k <= |s| - |needle| ==> !OccursAt(s, needle, k)
    ensures ReplaceAll(s, needle, rep) == s
    decreases |s|
  {
    if needle != [] && |s| >= |needle| {
      assert !OccursAt(s, needle, 0);
      assert s[..|needle|] == s[0..0 + |needle|];
      forall k | 0 <= k <= |s[1..]| - |needle| ensures !OccursAt(s[1..], needle, k) {
        assert !OccursAt(s, needle, k + 1);
        assert s[1..][k..k + |needle|] == s[k + 1..k + 1 + |needle|];
      }
      ReplaceAllAbsent(s[1..], needle, rep);
      assert [s[0]] + s[1..] == s;
    }
  }

  /** Replacing a string by itself changes nothing. */
  lemma {:induction false} ReplaceAllSelf(s: string, needle: string)
    ensures ReplaceAll(s, needle, needle) == s
    decreases |s|
  {
    if needle != [] && |s| >= |needle| {
      if s[..|needle|] == needle {
        ReplaceAllSelf(s[|needle|..], needle);
        assert s[..|needle|] + s[|needle|..] == s;
      } else {
        ReplaceAllSelf(s[1..], needle);
        assert [s[0]] + s[1..] == s;
      }
    }
  }

  /** With a one-character code each run is that character, once per matched character. */
  lemma {:induction false} RepeatSingle(c: char, n: nat)
    ensures Repeat([c], n) == seq(n, _ => c)
  {
    if n > 0 {
      RepeatSingle(c, n - 1);
      assert [c] + seq(n - 1, _ => c) == seq(n, _ => c);
    }
  }

  /** With an empty trie, `filter` returns the text unchanged. */
  lemma FilterEmptyTrie(disturbs: seq<string>, code: string, text: string)
    ensures FilterText(map[], disturbs, code, text) == text
  {
    MatchesEmptyTrie(disturbs, text, 0);
  }
  /** Replacing a needle that occurs once, at a known place, and cannot overlap the text around it. */
  lemma ReplaceOnce(a: string, needle: string, b: string, rep: string)
    requires needle != []
    requires forall k :: 0 <= k <= |a + needle + b| - |needle| && k != |a| ==> !OccursAt(a + needle + b, needle, k)
    ensures ReplaceAll(a + needle + b, needle, rep) == a + rep + b
    decreases |a|
  {
    var s := a + needle + b;
    if a == [] {
      assert s[..|needle|] == needle;
      assert s[|needle|..] == b;
      forall k | 0 <= k <= |b| - |needle| ensures !OccursAt(b, needle, k) {
        assert !OccursAt(s, needle, k + |needle|);
        assert s[k + |needle|..k + |needle| + |needle|] == b[k..k + |needle|];
      }
      ReplaceAllAbsent(b, needle, rep);
    } else {
      assert !OccursAt(s, needle, 0);
      assert s[..|needle|] == s[0..0 + |needle|];
      var s' := a[1..] + needle + b;
      assert s[1..] == s';
      forall k | 0 <= k <= |s'| - |needle| && k != |a[1..]| ensures !OccursAt(s', needle, k) {
        assert !OccursAt(s, needle, k + 1);
        assert s[k + 1..k + 1 + |needle|] == s'[k..k + |needle|];
      }
      ReplaceOnce(a[1..], needle, b, rep);
      assert [s[0]] + (a[1..] + rep + b) == a + rep + b;
    }
  }

  /** A needle whose first character occurs only at `p` can occur only at `p`. */
  lemma OnlyPlace(s: string, needle: string, p: nat)
    requires needle != []
    requires forall k :: 0 <= k < |s| && k != p ==> s[k] != needle[0]
    ensures forall k :: 0 <= k <= |s| - |needle| && k != p ==> !OccursAt(s, needle, k)
  {
    forall k | 0 <= k <= |s| - |needle| && k != p ensures !OccursAt(s, needle, k) {
      assert s[k..k + |needle|][0] == s[k] != needle[0];
    }
  }

  /** `str_replace` with one search string is one `ReplaceAll`. */
  lemma StrReplaceOne(w: string, rep: string, text: string)
    ensures StrReplace([w], [rep], text) == ReplaceAll(text, w, rep)
  {
    assert [w][1..] == [] && [rep][1..] == [];
  }

  /** `str_replace` with two search strings replaces the first everywhere, then the second in the result. */
  lemma StrReplaceTwo(w1: string, w2: string, r1: string, r2: string, text: string)
    ensures StrReplace([w1, w2], [r1, r2], text) == ReplaceAll(ReplaceAll(text, w1, r1), w2, r2)
  {
    assert [w1, w2][1..] == [w2] && [r1, r2][1..] == [r2];
    StrReplaceOne(w2, r2, ReplaceAll(text, w1, r1));
  }

  /** `filter` when `search` finds something: `str_replace` of the found words by their code runs. */
  lemma FilterFound(trie: TrieMap, disturbs: seq<string>, code: string, text: string)
    requires SearchWords(trie, disturbs, text) != []
    ensures var words := SearchWords(trie, disturbs, text);
      FilterText(trie, disturbs, code, text) == StrReplace(words, ReplaceCodes(code, words), text)
  {
  }

  /** When `search` finds exactly one word, `filter` replaces that word everywhere by one code run per character. */
  lemma FilterOneWord(trie: TrieMap, disturbs: seq<string>, code: string, text: string, w: string)
    requires SearchWords(trie, disturbs, text) == [w]
    ensures FilterText(trie, disturbs, code, text) == ReplaceAll(text, w, Repeat(code, |w|))
  {
    FilterFound(trie, disturbs, code, text);
    var codes := ReplaceCodes(code, [w]);
    assert codes == [Repeat(code, |w|)];
    StrReplaceOne(w, Repeat(code, |w|), text);
  }

  lemma ReplaceCodesPair(code: string, w1: string, w2: string)
    ensures ReplaceCodes(code, [w1, w2]) == [Repeat(code, |w1|), Repeat(code, |w2|)]
  {
  }

  /** When `search` finds two words, `filter` replaces the first everywhere, then the second in the result. */
  lemma FilterTwoWords(trie: TrieMap, disturbs: seq<string>, code: string, text: string, w1: string, w2: string)
    requires SearchWords(trie, disturbs, text) == [w1, w2]
    ensures FilterText(trie, disturbs, code, text)
      == ReplaceAll(ReplaceAll(text, w1, Repeat(code, |w1|)), w2, Repeat(code, |w2|))
  {
    FilterFound(trie, disturbs, code, text);
    ReplaceCodesPair(code, w1, w2);
    StrReplaceTwo(w1, w2, Repeat(code, |w1|), Repeat(code, |w2|), text);
  }
}
