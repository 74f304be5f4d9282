/**
 * The sessions of tests/SensitiveTest.php driven through the `Sensitive`
 * class itself: construction from a configuration, then searches, added
 * words, an emptied trie and a changed replacement code.
 */
module Sessions {
  import opened Wrappers
  import opened Engine
  import opened Scenarios
  import opened SearchScenarios
  import opened FilterScenarios
  import opened AddWordsScenarios

  /** `testAddWords`: configured words, then `addWords(['zz'])`, then `emptyTrieTreeMap()->addWords(['zz'])`. */
  method AddWordsSession() returns (configured: seq<string>, added: seq<string>, emptied: seq<string>)
    ensures configured == ["笨蛋", "sb"]
    ensures added == ["笨蛋", "zz"]
    ensures emptied == ["zz"]
  {
    var r := NewSensitive(Config(None, None, Some(["笨蛋", "sb", "sss"]), None));
    var s := r.value;
    var codes: seq<string>;
    assert s.trieTreeMap == SampleTrie();
    SearchSample();
    configured, codes := s.Search(Text, false, []);
    s.AddWords(["zz"]);
    AddWordsKeepsOld();
    added, codes := s.Search(ZzText, false, []);
    s.EmptyTrieTreeMap();
    s.AddWords(["zz"]);
    EmptyThenAdd();
    emptied, codes := s.Search(ZzText, false, []);
  }

  /** `testSetReplaceCode`: code "_" from the configuration, then code "o0" set on the engine. */
  method ReplaceCodeSession() returns (underscored: string, doubled: string)
    ensures underscored == "你是笨蛋大__嘛"
    ensures doubled == "你是笨蛋大o0o0嘛"
  {
    var r := NewSensitive(Config(Some("_"), None, Some(["sb"]), None));
    var s := r.value;
    assert s.trieTreeMap == SbTrie();
    FilterUnderscore();
    underscored := s.Filter(Text);
    s.ReplaceCode("o0");
    FilterTwoCharCode();
    doubled := s.Filter(Text);
  }

  /** `testFileReadException`: a word file that cannot be read makes construction fail. */
  method UnreadableFileSession() returns (failed: bool)
    ensures failed
  {
    var r := NewSensitive(Config(None, None, None, Some(Unreadable)));
    failed := r.Failure?;
  }
}
