/**
 * Concrete cases of the engine's behaviour, stated on the specification
 * functions: the scenarios exercised by tests/SensitiveTest.php, and the
 * walk's treatment of disturb characters and of leaves.
 */
module Scenarios {
  import opened Trie

  lemma TrimKeeps(s: string)
    requires s != [] && !IsTrimChar(s[0]) && !IsTrimChar(s[|s| - 1])
    ensures Trim(s) == s
  {
  }

  lemma InsertAllStep(m: TrieMap, w: string, ws: seq<string>)
    requires Trim(w) == w
    ensures InsertAll(m, [w] + ws) == InsertAll(Insert(m, w), ws)
  {
    var l := [w] + ws;
    assert l[0] == w && l[1..] == ws;
  }

  function SampleTrie(): TrieMap {
    InsertAll(map[], ["笨蛋", "sb", "sss"])
  }

  lemma InsertFool()
    ensures Insert(map[], "笨蛋") == map['笨' := Branch(map['蛋' := Leaf])]
  {
    assert "笨蛋"[1..] == "蛋";
  }

  lemma InsertSb(m: TrieMap)
    requires 's' !in m
    ensures Insert(m, "sb") == m['s' := Branch(map['b' := Leaf])]
  {
    assert "sb"[1..] == "b";
  }

  lemma InsertSss(m: TrieMap)
    requires 's' in m && m['s'] == Branch(map['b' := Leaf])
    ensures Insert(m, "sss") == m['s' := Branch(map['b' := Leaf, 's' := Branch(map['s' := Leaf])])]
  {
    assert "sss"[1..] == "ss" && "ss"[1..] == "s";
    assert Insert(map['b' := Leaf], "ss") == map['b' := Leaf, 's' := Branch(map['s' := Leaf])];
  }

  lemma SampleTrimmed()
    ensures Trim("笨蛋") == "笨蛋" && Trim("sb") == "sb" && Trim("sss") == "sss"
  {
    TrimKeeps("笨蛋");
    TrimKeeps("sb");
    TrimKeeps("sss");
  }

  /** The trie of the words 笨蛋, sb, sss, written out. */
  const SampleShape: TrieMap := map[
    '笨' := Branch(map['蛋' := Leaf]),
    's' := Branch(map['b' := Leaf, 's' := Branch(map['s' := Leaf])])]

  lemma SampleTrieShape()
    ensures SampleTrie() == SampleShape
  {
    SampleTrimmed();
    InsertFool();
    var t1 := map['笨' := Branch(map['蛋' := Leaf])];
    InsertSb(t1);
    var t2 := t1['s' := Branch(map['b' := Leaf])];
    InsertSss(t2);
    assert ["笨蛋", "sb", "sss"] == ["笨蛋"] + ["sb", "sss"];
    InsertAllStep(map[], "笨蛋", ["sb", "sss"]);
    assert ["sb", "sss"] == ["sb"] + ["sss"];
    InsertAllStep(t1, "sb", ["sss"]);
    assert ["sss"] == ["sss"] + [];
    InsertAllStep(t2, "sss", []);
  }

  function SbTrie(): TrieMap {
    InsertAll(map[], ["sb"])
  }

  lemma SbTrieShape()
    ensures SbTrie() == map['s' := Branch(map['b' := Leaf])]
  {
    TrimKeeps("sb");
    InsertAllStep(map[], "sb", []);
    assert ["sb"] == ["sb"] + [];
    InsertSb(map[]);
  }
}

module SearchScenarios {
  import opened Trie
  import opened Scanner
  import opened Scenarios

  const Text: string := "你是笨蛋大sb嘛"

  /** A character that is neither a disturb nor a key of the root gives no match. */
  lemma NoMatchAt(trie: TrieMap, disturbs: seq<string>, text: string, i: nat)
    requires i < |text| && !IsDisturb(text[i], disturbs) && text[i] !in trie
    ensures MatchLength(trie, disturbs, text, i) == 0
  {
    assert text[i..][0] == text[i];
  }

  /**
   * A walk over `[]` disturbs that enters a `Branch` at `text[i]`, reaches a
   * `Leaf` at `text[i + 1]` and stops at `text[i + 2]` has length 2.
   */
  lemma WalkTwo(t: TrieMap, text: string, i: nat)
    requires i + 2 < |text|
    requires text[i] in t && t[text[i]].Branch?
    requires text[i + 1] in t[text[i]].children && t[text[i]].children[text[i + 1]] == Leaf
    requires text[i + 2] !in t[text[i]].children
    ensures MatchLength(t, [], text, i) == 2
  {
    var ch := t[text[i]].children;
    assert text[i..][0] == text[i] && text[i..][1..] == text[i + 1..];
    assert text[i + 1..][0] == text[i + 1] && text[i + 1..][1..] == text[i + 2..];
    assert text[i + 2..][0] == text[i + 2];
    assert Scan(ch, text[i + 2..], []) == Walk(0, false);
    assert Scan(ch, text[i + 1..], []) == Walk(1, true);
  }

  /** An eight-character text whose walks succeed exactly at offsets 2 and 5, each with length 2. */
  lemma MatchesAt2And5(t: TrieMap, d: seq<string>, text: string)
    requires |text| == 8
    requires MatchLength(t, d, text, 0) == 0 && MatchLength(t, d, text, 1) == 0
    requires MatchLength(t, d, text, 2) == 2 && MatchLength(t, d, text, 4) == 0
    requires MatchLength(t, d, text, 5) == 2 && MatchLength(t, d, text, 7) == 0
    ensures Matches(t, d, text, 0) == [Span(2, 2), Span(5, 2)]
  {
    assert Matches(t, d, text, 7) == [];
    assert Matches(t, d, text, 5) == [Span(5, 2)];
    assert Matches(t, d, text, 4) == [Span(5, 2)];
    assert Matches(t, d, text, 2) == [Span(2, 2), Span(5, 2)];
    assert Matches(t, d, text, 1) == [Span(2, 2), Span(5, 2)];
  }

  /** An eight-character text whose only successful walk is at offset 5, with length 2. */
  lemma MatchesAt5(t: TrieMap, d: seq<string>, text: string)
    requires |text| == 8
    requires MatchLength(t, d, text, 0) == 0 && MatchLength(t, d, text, 1) == 0
    requires MatchLength(t, d, text, 2) == 0 && MatchLength(t, d, text, 3) == 0
    requires MatchLength(t, d, text, 4) == 0
    requires MatchLength(t, d, text, 5) == 2 && MatchLength(t, d, text, 7) == 0
    ensures Matches(t, d, text, 0) == [Span(5, 2)]
  {
    assert Matches(t, d, text, 7) == [];
    assert Matches(t, d, text, 5) == [Span(5, 2)];
    assert Matches(t, d, text, 4) == [Span(5, 2)];
    assert Matches(t, d, text, 3) == [Span(5, 2)];
    assert Matches(t, d, text, 2) == [Span(5, 2)];
    assert Matches(t, d, text, 1) == [Span(5, 2)];
  }

  lemma SlicesPair(text: string, a: Span, b: Span)
    requires a.start + a.len <= |text|
    requires b.start + b.len <= |text|
    ensures Slices(text, [a, b]) == [text[a.start..End(a)], text[b.start..End(b)]]
  {
  }

  lemma SlicesSingle(text: string, a: Span)
    requires a.start + a.len <= |text|
    ensures Slices(text, [a]) == [text[a.start..End(a)]]
  {
  }

  /**
   * The lemmas below take the trie and the text as parameters pinned by
   * their `requires`, so that the verifier does not evaluate the scan on
   * literal arguments; a wrapper states each scenario for the trie the
   * engine builds.
   */
  lemma MatchesSampleIn(t: TrieMap, text: string)
    requires t == SampleShape
    requires text == Text
    ensures Matches(t, [], text, 0) == [Span(2, 2), Span(5, 2)]
  {
    WalkTwo(t, text, 2);
    WalkTwo(t, text, 5);
    NoMatchAt(t, [], text, 0);
    NoMatchAt(t, [], text, 1);
    NoMatchAt(t, [], text, 4);
    NoMatchAt(t, [], text, 7);
    MatchesAt2And5(t, [], text);
  }

  lemma SearchSampleIn(t: TrieMap, text: string)
    requires t == SampleShape
    requires text == Text
    ensures SearchWords(t, [], text) == ["笨蛋", "sb"]
  {
    MatchesSampleIn(t, text);
    SampleSlicesIn(text);
  }

  lemma SampleSlicesIn(text: string)
    requires text == Text
    ensures Slices(text, [Span(2, 2), Span(5, 2)]) == ["笨蛋", "sb"]
  {
    SlicesPair(text, Span(2, 2), Span(5, 2));
    assert text[2..4] == "笨蛋" && text[5..7] == "sb";
  }

  /** `testSearch`: words 笨蛋, sb, sss in "你是笨蛋大sb嘛": both words of the text are found, in order. */
  lemma SearchSample()
    ensures SearchWords(SampleTrie(), [], Text) == ["笨蛋", "sb"]
  {
    SampleTrieShape();
    SearchSampleIn(SampleTrie(), Text);
  }
}

module FilterScenarios {
  import opened Trie
  import opened Scanner
  import opened Replace
  import opened Scenarios
  import opened SearchScenarios

  lemma FilterSampleFirst(text: string)
    requires text == Text
    ensures ReplaceAll(text, "笨蛋", "**") == "你是**大sb嘛"
  {
    assert text == "你是" + "笨蛋" + "大sb嘛";
    forall k | 0 <= k < |text| && k != 2 ensures text[k] != '笨' {
      assert k == 0 || k == 1 || k == 3 || k == 4 || k == 5 || k == 6 || k == 7;
    }
    OnlyPlace(text, "笨蛋", 2);
    ReplaceOnce("你是", "笨蛋", "大sb嘛", "**");
  }

  lemma FilterSampleSecond(text: string)
    requires text == "你是**大sb嘛"
    ensures ReplaceAll(text, "sb", "**") == "你是**大**嘛"
  {
    assert text == "你是**大" + "sb" + "嘛";
    forall k | 0 <= k < |text| && k != 5 ensures text[k] != 's' {
      assert k == 0 || k == 1 || k == 2 || k == 3 || k == 4 || k == 6 || k == 7;
    }
    OnlyPlace(text, "sb", 5);
    ReplaceOnce("你是**大", "sb", "嘛", "**");
  }

  lemma FilterSampleIn(t: TrieMap, text: string)
    requires t == SampleShape
    requires text == Text
    ensures FilterText(t, [], "*", text) == "你是**大**嘛"
  {
    SearchSampleIn(t, text);
    FilterTwoWords(t, [], "*", text, "笨蛋", "sb");
    assert |"笨蛋"| == 2 && |"sb"| == 2;
    SampleReplaced(text, Repeat("*", 2));
  }

  lemma SampleReplaced(text: string, run: string)
    requires text == Text && run == Repeat("*", 2)
    ensures ReplaceAll(ReplaceAll(text, "笨蛋", run), "sb", run) == "你是**大**嘛"
  {
    assert run == "**";
    FilterSampleFirst(text);
    FilterSampleSecond(ReplaceAll(text, "笨蛋", run));
  }

  /** `testFilter`: words 笨蛋, sb, sss and the default code give "你是**大**嘛". */
  lemma FilterSample()
    ensures FilterText(SampleTrie(), [], "*", Text) == "你是**大**嘛"
  {
    SampleTrieShape();
    FilterSampleIn(SampleTrie(), Text);
  }

  lemma SbSearchIn(t: TrieMap, text: string)
    requires t == map['s' := Branch(map['b' := Leaf])]
    requires text == Text
    ensures SearchWords(t, [], text) == ["sb"]
  {
    WalkTwo(t, text, 5);
    NoMatchAt(t, [], text, 7);
    NoMatchAt(t, [], text, 4);
    NoMatchAt(t, [], text, 3);
    NoMatchAt(t, [], text, 2);
    NoMatchAt(t, [], text, 1);
    NoMatchAt(t, [], text, 0);
    MatchesAt5(t, [], text);
    SlicesSingle(text, Span(5, 2));
    assert text[5..7] == "sb";
  }

  lemma ReplaceSb(text: string, rep: string)
    requires text == Text
    ensures ReplaceAll(text, "sb", rep) == "你是笨蛋大" + rep + "嘛"
  {
    assert text == "你是笨蛋大" + "sb" + "嘛";
    forall k | 0 <= k < |text| && k != 5 ensures text[k] != 's' {
      assert k == 0 || k == 1 || k == 2 || k == 3 || k == 4 || k == 6 || k == 7;
    }
    OnlyPlace(text, "sb", 5);
    ReplaceOnce("你是笨蛋大", "sb", "嘛", rep);
  }

  lemma SbFilterIn(t: TrieMap, text: string, code: string)
    requires t == map['s' := Branch(map['b' := Leaf])]
    requires text == Text
    ensures FilterText(t, [], code, text) == "你是笨蛋大" + Repeat(code, 2) + "嘛"
  {
    SbSearchIn(t, text);
    FilterOneWord(t, [], code, text, "sb");
    ReplaceSb(text, Repeat(code, 2));
  }

  /** `testSetReplaceCode`: word sb with code "_" gives "你是笨蛋大__嘛". */
  lemma FilterUnderscore()
    ensures FilterText(SbTrie(), [], "_", Text) == "你是笨蛋大__嘛"
  {
    var run := Repeat("_", 2);
    assert run == "__";
    assert "你是笨蛋大" + run + "嘛" == "你是笨蛋大__嘛";
    SbTrieShape();
    SbFilterIn(SbTrie(), Text, "_");
  }

  /** `testSetReplaceCode`: a two-character code is repeated once per matched character. */
  lemma FilterTwoCharCode()
    ensures FilterText(SbTrie(), [], "o0", Text) == "你是笨蛋大o0o0嘛"
  {
    var run := Repeat("o0", 2);
    assert run == "o0o0";
    assert "你是笨蛋大" + run + "嘛" == "你是笨蛋大o0o0嘛";
    SbTrieShape();
    SbFilterIn(SbTrie(), Text, "o0");
  }
}

/** tests/SensitiveTest.php `testAddWords`: adding a word on top of the configured ones, then after emptying. */
module AddWordsScenarios {
  import opened Trie
  import opened Scanner
  import opened Scenarios
  import opened SearchScenarios

  const ZzText: string := "你是笨蛋大zz嘛"

  lemma InsertZz(m: TrieMap)
    requires 'z' !in m
    ensures Insert(m, "zz") == m['z' := Branch(map['z' := Leaf])]
  {
    assert "zz"[1..] == "z";
  }

  lemma AddZzShape(m: TrieMap)
    requires 'z' !in m
    ensures InsertAll(m, ["zz"]) == m['z' := Branch(map['z' := Leaf])]
  {
    TrimKeeps("zz");
    assert ["zz"] == ["zz"] + [];
    InsertAllStep(m, "zz", []);
    InsertZz(m);
  }

  function AddedTrie(): TrieMap {
    InsertAll(SampleTrie(), ["zz"])
  }

  lemma AddedSearchIn(t: TrieMap, text: string)
    requires t == SampleShape['z' := Branch(map['z' := Leaf])]
    requires text == ZzText
    ensures SearchWords(t, [], text) == ["笨蛋", "zz"]
  {
    WalkTwo(t, text, 2);
    WalkTwo(t, text, 5);
    NoMatchAt(t, [], text, 0);
    NoMatchAt(t, [], text, 1);
    NoMatchAt(t, [], text, 4);
    NoMatchAt(t, [], text, 7);
    MatchesAt2And5(t, [], text);
    SlicesPair(text, Span(2, 2), Span(5, 2));
    assert text[2..4] == "笨蛋" && text[5..7] == "zz";
  }

  /** After `addWords(['zz'])` on the words 笨蛋, sb, sss, both the old and the new word are found. */
  lemma AddWordsKeepsOld()
    ensures SearchWords(AddedTrie(), [], ZzText) == ["笨蛋", "zz"]
  {
    SampleTrieShape();
    AddZzShape(SampleTrie());
    AddedSearchIn(AddedTrie(), ZzText);
  }

  lemma ZzOnlySearchIn(t: TrieMap, text: string)
    requires t == map['z' := Branch(map['z' := Leaf])]
    requires text == ZzText
    ensures SearchWords(t, [], text) == ["zz"]
  {
    WalkTwo(t, text, 5);
    NoMatchAt(t, [], text, 7);
    NoMatchAt(t, [], text, 4);
    NoMatchAt(t, [], text, 3);
    NoMatchAt(t, [], text, 2);
    NoMatchAt(t, [], text, 1);
    NoMatchAt(t, [], text, 0);
    MatchesAt5(t, [], text);
    SlicesSingle(text, Span(5, 2));
    assert text[5..7] == "zz";
  }

  /** After `emptyTrieTreeMap()->addWords(['zz'])` only the new word is found. */
  lemma EmptyThenAdd()
    ensures SearchWords(InsertAll(map[], ["zz"]), [], ZzText) == ["zz"]
  {
    AddZzShape(map[]);
    ZzOnlySearchIn(InsertAll(map[], ["zz"]), ZzText);
  }
}

/**
 * The walk of `checkWord` around the word "sb": a leaf does not stop it, and
 * disturb characters before, inside and after the word are all counted.
 */
module WalkScenarios {
  import opened Trie
  import opened Scanner
  import opened Scenarios

  /** Word "sb" and text "sbb": the walk stays at the leaf's level and takes the whole text. */
  lemma LeafKeepsWalking()
    ensures MatchLength(SbTrie(), [], "sbb", 0) == 3
  {
    SbTrieShape();
    assert "sbb"[0..] == "sbb" && "sbb"[1..] == "bb" && "bb"[1..] == "b" && "b"[1..] == [];
    assert Scan(map['b' := Leaf], "b", []) == Walk(1, true);
    assert Scan(map['b' := Leaf], "bb", []) == Walk(2, true);
  }

  /** Word "sb", disturb "*" and text "s*b": the disturb is skipped and counted. */
  lemma DisturbInside()
    ensures MatchLength(SbTrie(), ["*"], "s*b", 0) == 3
  {
    SbTrieShape();
    assert "s*b"[0..] == "s*b" && "s*b"[1..] == "*b" && "*b"[1..] == "b" && "b"[1..] == [];
    assert IsDisturb('*', ["*"]) && !IsDisturb('s', ["*"]) && !IsDisturb('b', ["*"]);
    assert Scan(map['b' := Leaf], "b", ["*"]) == Walk(1, true);
    assert Scan(map['b' := Leaf], "*b", ["*"]) == Walk(2, true);
  }

  /** Word "sb", disturb "*" and text "*sb*": leading and trailing disturbs are part of the match. */
  lemma DisturbsAround()
    ensures MatchLength(SbTrie(), ["*"], "*sb*", 0) == 4
  {
    SbTrieShape();
    assert "*sb*"[0..] == "*sb*" && "*sb*"[1..] == "sb*" && "sb*"[1..] == "b*" && "b*"[1..] == "*" && "*"[1..] == [];
    assert IsDisturb('*', ["*"]) && !IsDisturb('s', ["*"]) && !IsDisturb('b', ["*"]);
    assert Scan(map['b' := Leaf], "*", ["*"]) == Walk(1, false);
    assert Scan(map['b' := Leaf], "b*", ["*"]) == Walk(2, true);
  }
}

/**
 * Consequences of the trie having no word flag: a word inserted before a
 * longer word it prefixes is lost, and one inserted after it is never added.
 */
module InsertionOrderScenarios {
  import opened Wrappers
  import opened Trie
  import opened Scenarios

  lemma AbcTrims()
    ensures Trim("ab") == "ab" && Trim("abc") == "abc"
  {
    TrimKeeps("ab");
    TrimKeeps("abc");
  }

  /** Words ["ab", "abc"]: "abc" is a word afterwards, "ab" no longer is. */
  lemma PrefixFirstIsLost()
    ensures IsWord(InsertAll(map[], ["ab", "abc"]), "abc")
    ensures !IsWord(InsertAll(map[], ["ab", "abc"]), "ab")
  {
    AbcTrims();
    assert ["ab", "abc"] == ["ab"] + ["abc"];
    InsertAllStep(map[], "ab", ["abc"]);
    assert ["abc"] == ["abc"] + [];
    var m1 := Insert(map[], "ab");
    InsertAllStep(m1, "abc", []);
    assert "ab"[1..] == "b" && "abc"[1..] == "bc" && "bc"[1..] == "c";
    assert m1 == map['a' := Branch(map['b' := Leaf])];
    assert IsWord(m1, "ab");
    assert Lookup(m1, "abc") == None;
    LookupInsert(m1, "abc");
    InsertWordStays(m1, "abc", "ab");
    assert IsPrefix("ab", "abc");
  }

  /** Words ["abc", "ab"]: the second insertion changes nothing. */
  lemma PrefixAfterIsIgnored()
    ensures InsertAll(map[], ["abc", "ab"]) == InsertAll(map[], ["abc"])
  {
    AbcTrims();
    assert ["abc", "ab"] == ["abc"] + ["ab"];
    InsertAllStep(map[], "abc", ["ab"]);
    assert ["ab"] == ["ab"] + [];
    assert ["abc"] == ["abc"] + [];
    var m1 := Insert(map[], "abc");
    InsertAllStep(m1, "ab", []);
    InsertAllStep(map[], "abc", []);
    LookupInsert(map[], "abc");
    assert IsPrefix("ab", "abc");
    InsertPrefixIsNoOp(m1, "abc", "ab");
  }
}

/** The disturb setting "*0*#": the repeated "*" and the falsy "0" are dropped. */
module ConfigScenarios {
  import opened Wrappers
  import opened DisturbConfig

  lemma SampleSplit()
    ensures SplitChars("*0*#") == ["", "*", "0", "*", "#", ""]
  {
  }

  lemma UniqueSnoc(xs: seq<string>, x: string)
    ensures Unique(xs + [x]) == if x in Unique(xs) then Unique(xs) else Unique(xs) + [x]
  {
    assert (xs + [x])[..|xs + [x]| - 1] == xs;
  }

  lemma UniqueFirst()
    ensures Unique(["", "*"]) == ["", "*"]
  {
    UniqueSnoc([], "");
    assert [] + [""] == [""];
    UniqueSnoc([""], "*");
    assert [""] + ["*"] == ["", "*"];
  }

  lemma UniqueFront()
    ensures Unique(["", "*", "0"]) == ["", "*", "0"]
  {
    UniqueFirst();
    UniqueSnoc(["", "*"], "0");
    assert ["", "*"] + ["0"] == ["", "*", "0"];
  }

  lemma UniqueBack()
    ensures Unique(["", "*", "0", "*", "#"]) == ["", "*", "0", "#"]
  {
    UniqueFront();
    UniqueSnoc(["", "*", "0"], "*");
    assert ["", "*", "0"] + ["*"] == ["", "*", "0", "*"];
    UniqueSnoc(["", "*", "0", "*"], "#");
    assert ["", "*", "0", "*"] + ["#"] == ["", "*", "0", "*", "#"];
  }

  lemma SampleUnique()
    ensures Unique(["", "*", "0", "*", "#", ""]) == ["", "*", "0", "#"]
  {
    UniqueBack();
    UniqueSnoc(["", "*", "0", "*", "#"], "");
    assert ["", "*", "0", "*", "#"] + [""] == ["", "*", "0", "*", "#", ""];
  }

  lemma SampleKeep()
    ensures KeepTruthy(["", "*", "0", "#"]) == ["*", "#"]
  {
    var u: seq<string> := ["", "*", "0", "#"];
    assert u[1..] == ["*", "0", "#"] && u[1..][1..] == ["0", "#"] && u[1..][1..][1..] == ["#"];
    assert KeepTruthy(["#"]) == ["#"];
    assert KeepTruthy(["0", "#"]) == ["#"];
    assert KeepTruthy(["*", "0", "#"]) == ["*", "#"];
  }

  lemma ParseSample()
    ensures ParseDisturbs(Some("*0*#")) == Some(["*", "#"])
  {
    SampleSplit();
    SampleUnique();
    SampleKeep();
  }
}
