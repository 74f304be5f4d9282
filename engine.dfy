/**
 * The `Sensitive` engine of src/Sensitive.php with caching switched off: its
 * replacement code, disturb list and trie are fields that the setters,
 * `emptyTrieTreeMap`, `addWords` and `resetTrieTreeMap` update in place, and
 * its loops (`addToTree`, `checkWord`, `search`) are proved against the
 * specification functions of the Trie, Scanner and Replace modules.
 */
module Engine {
  import opened Wrappers
  import opened Trie
  import opened Scanner
  import opened Replace

  /** What reading a word file yields: its lines, or a failure to open it. */
  datatype WordFile = Unreadable | Lines(lines: seq<string>)

  datatype Error = FileReadError

  datatype Result<+T> = Success(value: T) | Failure(error: Error)

  /** The settings the engine reads; an absent (null) setting is `None`. */
  datatype Config = Config(
    replaceCode: Option<string>,
    disturbs: Option<seq<string>>,
    words: Option<seq<string>>,
    file: Option<WordFile>)

  /** The words a word file contributes: its lines, or none when it cannot be opened. */
  function FileWords(f: WordFile): seq<string> {
    match f
    case Unreadable => []
    case Lines(ls) => ls
  }

  /** The trie `resetTrieTreeMap` builds: the configured words, then the configured file's lines. */
  function ConfiguredTrie(config: Config): TrieMap {
    var fromWords := if config.words.Some? then InsertAll(map[], config.words.value) else map[];
    if config.file.Some? then InsertAll(fromWords, FileWords(config.file.value)) else fromWords
  }

  class Sensitive {
    var replaceCode: string
    var trieTreeMap: TrieMap
    var disturbList: seq<string>
    const config: Config

    /** The field set-up of the constructor: defaults, then the configured replacement code and disturbs. */
    constructor Configure(config: Config)
      ensures this.config == config
      ensures replaceCode == if config.replaceCode.Some? then config.replaceCode.value else "*"
      ensures disturbList == if config.disturbs.Some? then config.disturbs.value else []
      ensures trieTreeMap == map[]
    {
      this.config := config;
      replaceCode := "*";
      trieTreeMap := map[];
      disturbList := [];
      new;
      if config.replaceCode.Some? {
        ReplaceCode(config.replaceCode.value);
      }
      if config.disturbs.Some? {
        SetDisturbs(config.disturbs.value);
      }
    }

    method ReplaceCode(code: string)
      modifies this`replaceCode
      ensures replaceCode == code
    {
      replaceCode := code;
    }

    method SetDisturbs(disturbs: seq<string>)
      modifies this`disturbList
      ensures disturbList == disturbs
    {
      disturbList := disturbs;
    }

    /** Empties the trie and inserts the configured words and file lines; fails if the file cannot be opened. */
    method ResetTrieTreeMap() returns (r: Outcome<Error>)
      modifies this`trieTreeMap
      ensures r.Fail? <==> config.file == Some(Unreadable)
      ensures trieTreeMap == ConfiguredTrie(config)
    {
      EmptyTrieTreeMap();
      if config.words.Some? {
        AddWords(config.words.value);
      }
      r := Pass;
      if config.file.Some? {
        r := AddWordsFromFile(config.file.value);
      }
    }

    method EmptyTrieTreeMap()
      modifies this`trieTreeMap
      ensures trieTreeMap == map[]
    {
      trieTreeMap := map[];
    }

    /** Inserts each word in turn on top of the current trie. */
    method AddWords(wordsList: seq<string>)
      modifies this`trieTreeMap
      ensures trieTreeMap == InsertAll(old(trieTreeMap), wordsList)
    {
      ghost var start := trieTreeMap;
      for n := 0 to |wordsList|
        invariant InsertAll(start, wordsList) == InsertAll(trieTreeMap, wordsList[n..])
      {
        assert wordsList[n..][1..] == wordsList[n + 1..];
        AddToTree(wordsList[n]);
      }
    }

    /**
     * Inserts one word after trimming it. The reference the source walks down
     * the nested maps is the path of keys `w[..i]` read so far.
     */
    method AddToTree(words: string)
      modifies this`trieTreeMap
      ensures trieTreeMap == Insert(old(trieTreeMap), Trim(words))
    {
      var w := Trim(words);
      ghost var start := trieTreeMap;
      var path: seq<char> := [];
      var i := 0;
      while i < |w|
        invariant 0 <= i <= |w|
        invariant path == w[..i]
        invariant trieTreeMap == Insert(start, w[..i])
      {
        var word := w[i];
        trieTreeMap := Put(trieTreeMap, path, word);
        PutExtends(start, w[..i], word);
        assert w[..i] + [word] == w[..i + 1];
        path := path + [word];
        i := i + 1;
      }
      assert w[..i] == w;
    }

    /** Inserts the lines of a word file; nothing is inserted if it cannot be opened. */
    method AddWordsFromFile(file: WordFile) returns (r: Outcome<Error>)
      modifies this`trieTreeMap
      ensures r.Fail? <==> file.Unreadable?
      ensures trieTreeMap == InsertAll(old(trieTreeMap), FileWords(file))
    {
      match file
      case Unreadable =>
        r := Fail(FileReadError);
      case Lines(lines) =>
        AddWords(lines);
        r := Pass;
    }

    /** What `filter` does: search with replacement runs, then replace every found word in the text. */
    method Filter(text: string) returns (r: string)
      ensures r == FilterText(trieTreeMap, disturbList, replaceCode, text)
      ensures |replaceCode| == 1 ==> |r| == |text|
    {
      var wordsList, replaceCodeList := Search(text, true, []);
      assert replaceCodeList == ReplaceCodes(replaceCode, wordsList);
      if wordsList == [] {
        return text;
      }
      r := StrReplace(wordsList, replaceCodeList, text);
    }

    /**
     * The found words of `text`, left to right; with `hasReplace`, the given
     * list is extended by one run of the replacement code per found word.
     */
    method Search(text: string, hasReplace: bool, replaceCodeList: seq<string>)
      returns (wordsList: seq<string>, replaceCodes: seq<string>)
      ensures wordsList == SearchWords(trieTreeMap, disturbList, text)
      ensures replaceCodes
        == replaceCodeList + if hasReplace then ReplaceCodes(replaceCode, wordsList) else []
    {
      var trie, disturbs, code := trieTreeMap, disturbList, replaceCode;
      wordsList := [];
      replaceCodes := replaceCodeList;
      ghost var done: seq<Span> := [];
      var textLength := |text|;
      var i := 0;
      while i < textLength
        invariant 0 <= i <= textLength
        invariant Matches(trie, disturbs, text, 0) == done + Matches(trie, disturbs, text, i)
        invariant forall k :: 0 <= k < |done| ==> End(done[k]) <= |text|
        invariant wordsList == Slices(text, done)
        invariant replaceCodes == replaceCodeList + if hasReplace then ReplaceCodes(code, wordsList) else []
      {
        var wordLength := CheckWord(text, i);
        ScanStep(trie, disturbs, text, done, i);
        if wordLength > 0 {
          var words := text[i..i + wordLength];
          SlicesSnoc(text, done, Span(i, wordLength));
          ReplaceCodesSnoc(code, wordsList, words);
          wordsList := wordsList + [words];
          done := done + [Span(i, wordLength)];
          if hasReplace {
            replaceCodes := replaceCodes + [Repeat(code, |words|)];
          }
          i := i + wordLength - 1;
        }
        i := i + 1;
      }
      assert done + Matches(trie, disturbs, text, i) == done;
    }

    /** The length `checkWord` reports for a walk from `beginIndex`. */
    method CheckWord(text: string, beginIndex: nat) returns (wordLength: nat)
      requires beginIndex <= |text|
      ensures wordLength == MatchLength(trieTreeMap, disturbList, text, beginIndex)
    {
      var flag := false;
      wordLength := 0;
      var trieTree := trieTreeMap;
      var i := beginIndex;
      while i < |text|
        invariant beginIndex <= i <= |text|
        invariant Scan(trieTreeMap, text[beginIndex..], disturbList)
          == Walk(wordLength + Scan(trieTree, text[i..], disturbList).consumed,
                  flag || Scan(trieTree, text[i..], disturbList).found)
      {
        var word := text[i];
        assert text[i..][0] == word && text[i..][1..] == text[i + 1..];
        if IsDisturb(word, disturbList) {
          wordLength := wordLength + 1;
          i := i + 1;
          continue;
        }
        if word !in trieTree {
          break;
        }
        wordLength := wordLength + 1;
        if trieTree[word] != Leaf {
          trieTree := trieTree[word].children;
        } else {
          flag := true;
        }
        i := i + 1;
      }
      if !flag {
        wordLength := 0;
      }
    }
  }

  /** `new Sensitive($config)` with caching off: configure, then build the trie; a missing word file makes it throw. */
  method NewSensitive(config: Config) returns (r: Result<Sensitive>)
    ensures r.Failure? <==> config.file == Some(Unreadable)
    ensures r.Success? ==> fresh(r.value) && r.value.config == config
    ensures r.Success? ==> r.value.trieTreeMap == ConfiguredTrie(config)
    ensures r.Success? ==>
      r.value.replaceCode == (if config.replaceCode.Some? then config.replaceCode.value else "*")
    ensures r.Success? ==>
      r.value.disturbList == (if config.disturbs.Some? then config.disturbs.value else [])
  {
    var s := new Sensitive.Configure(config);
    var outcome := s.ResetTrieTreeMap();
    if outcome.Fail? {
      return Failure(outcome.error);
    }
    return Success(s);
  }
}
