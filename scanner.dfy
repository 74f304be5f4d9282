/**
 * The matcher of src/Sensitive.php: `isDisturb`, the walk of `checkWord` and
 * the left-to-right scan of `search`, as specification functions over a trie.
 */
module Scanner {
  import opened Wrappers
  import opened Trie

  /** `isDisturb`: the one-character string `[c]` is an element of the disturb list. */
  predicate IsDisturb(c: char, disturbs: seq<string>) {
    [c] in disturbs
  }

  /** Where a walk ends: how many characters it consumed and whether it reached a `Leaf`. */
  datatype Walk = Walk(consumed: nat, found: bool)

  /**
   * The walk of `checkWord` from trie level `node` over the remaining text.
   * A disturb character is counted and skipped without moving in the trie; a
   * character missing from the current level ends the walk; a `Branch` slot is
   * descended into; a `Leaf` slot sets the flag and the walk carries on at the
   * SAME level.
   */
  function Scan(node: TrieMap, rest: string, disturbs: seq<string>): (r: Walk)
    ensures r.consumed <= |rest|
    ensures r.found ==> r.consumed >= 1
    decreases |rest|
  {
    if rest == [] then Walk(0, false)
    else if IsDisturb(rest[0], disturbs) then
      var w := Scan(node, rest[1..], disturbs);
      Walk(w.consumed + 1, w.found)
    else if rest[0] !in node then Walk(0, false)
    else match node[rest[0]]
      case Branch(ch) =>
        var w := Scan(ch, rest[1..], disturbs);
        Walk(w.consumed + 1, w.found)
      case Leaf =>
        var w := Scan(node, rest[1..], disturbs);
        Walk(w.consumed + 1, true)
  }

  /** The value `checkWord` returns for a walk starting at `begin`: its length if a leaf was reached, else 0. */
  function MatchLength(trie: TrieMap, disturbs: seq<string>, text: string, begin: nat): (r: nat)
    requires begin <= |text|
    ensures r == 0 || 1 <= r <= |text| - begin
  {
    var w := Scan(trie, text[begin..], disturbs);
    if w.found then w.consumed else 0
  }

  /** `s` with its disturb characters removed. */
  function Strip(s: string, disturbs: seq<string>): string
    decreases |s|
  {
    if s == [] then []
    else (if IsDisturb(s[0], disturbs) then [] else [s[0]]) + Strip(s[1..], disturbs)
  }

  /** A matched slice of the text: its offset and its length, in characters. */
  datatype Span = Span(start: nat, len: nat)

  function End(s: Span): nat {
    s.start + s.len
  }

  /**
   * The spans `search` reports from offset `i` on: at each offset the walk is
   * tried; a positive length is reported and the scan resumes right after it.
   */
  function Matches(trie: TrieMap, disturbs: seq<string>, text: string, i: nat): (r: seq<Span>)
    requires i <= |text|
    ensures forall k :: 0 <= k < |r| ==> i <= r[k].start && 1 <= r[k].len && End(r[k]) <= |text|
    ensures forall k :: 0 <= k < |r| - 1 ==> End(r[k]) <= r[k + 1].start
    decreases |text| - i
  {
    if i == |text| then []
    else
      var n := MatchLength(trie, disturbs, text, i);
      if n > 0 then [Span(i, n)] + Matches(trie, disturbs, text, i + n)
      else Matches(trie, disturbs, text, i + 1)
  }

  /** The slices of `text` that `spans` designate. */
  function Slices(text: string, spans: seq<Span>): (r: seq<string>)
    requires forall k :: 0 <= k < |spans| ==> End(spans[k]) <= |text|
  {
    seq(|spans|, k requires 0 <= k < |spans| =>
      assert End(spans[k]) <= |text|; text[spans[k].start..End(spans[k])])
  }

  /** What `search` returns: the matched slices of the text, left to right. */
  function SearchWords(trie: TrieMap, disturbs: seq<string>, text: string): seq<string> {
    Slices(text, Matches(trie, disturbs, text, 0))
  }

  /** One step of the scan loop: the spans reported so far and the ones still to come make up the whole scan. */
  lemma ScanStep(trie: TrieMap, disturbs: seq<string>, text: string, done: seq<Span>, i: nat)
    requires i < |text|
    requires Matches(trie, disturbs, text, 0) == done + Matches(trie, disturbs, text, i)
    ensures var n := MatchLength(trie, disturbs, text, i);
      Matches(trie, disturbs, text, 0)
        == if n > 0 then (done + [Span(i, n)]) + Matches(trie, disturbs, text, i + n)
           else done + Matches(trie, disturbs, text, i + 1)
  {
    var n := MatchLength(trie, disturbs, text, i);
    if n > 0 {
      var rest := Matches(trie, disturbs, text, i + n);
      assert Matches(trie, disturbs, text, i) == [Span(i, n)] + rest;
      assert done + ([Span(i, n)] + rest) == (done + [Span(i, n)]) + rest;
    }
  }

  lemma SlicesSnoc(text: string, spans: seq<Span>, s: Span)
    requires forall k :: 0 <= k < |spans| ==> End(spans[k]) <= |text|
    requires End(s) <= |text|
    ensures forall k :: 0 <= k < |spans + [s]| ==> End((spans + [s])[k]) <= |text|
    ensures Slices(text, spans + [s]) == Slices(text, spans) + [text[s.start..End(s)]]
  {
  }

  // ---- The walk ----

  lemma {:induction false} StripDrop(s: string, disturbs: seq<string>, j: nat)
    requires 1 <= j <= |s|
    ensures Strip(s[..j], disturbs)
      == (if IsDisturb(s[0], disturbs) then [] else [s[0]]) + Strip(s[1..][..j - 1], disturbs)
  {
    assert s[..j][0] == s[0];
    assert s[..j][1..] == s[1..][..j - 1];
  }

  /**
   * The walk reaches a `Leaf` exactly when some prefix of the remaining text,
   * with its disturb characters removed, is a word of the trie level.
   */
  lemma {:induction false} ScanFindsWord(node: TrieMap, rest: string, disturbs: seq<string>)
    ensures Scan(node, rest, disturbs).found
      <==> exists j :: 0 < j <= |rest| && IsWord(node, Strip(rest[..j], disturbs))
    decreases |rest|
  {
    if rest == [] {
    } else {
      var c := rest[0];
      var tail := rest[1..];
      if IsDisturb(c, disturbs) {
        ScanFindsWord(node, tail, disturbs);
        if Scan(node, rest, disturbs).found {
          var j :| 0 < j <= |tail| && IsWord(node, Strip(tail[..j], disturbs));
          StripDrop(rest, disturbs, j + 1);
          assert [] + Strip(tail[..j], disturbs) == Strip(tail[..j], disturbs);
        }
        if exists j :: 0 < j <= |rest| && IsWord(node, Strip(rest[..j], disturbs)) {
          var j :| 0 < j <= |rest| && IsWord(node, Strip(rest[..j], disturbs));
          StripDrop(rest, disturbs, j);
          assert [] + Strip(tail[..j - 1], disturbs) == Strip(tail[..j - 1], disturbs);
          assert j - 1 > 0;
          assert IsWord(node, Strip(tail[..j - 1], disturbs));
        }
      } else if c !in node {
        forall j | 0 < j <= |rest| ensures !IsWord(node, Strip(rest[..j], disturbs)) {
          StripDrop(rest, disturbs, j);
        }
      } else if node[c].Leaf? {
        StripDrop(rest, disturbs, 1);
        assert tail[..0] == [];
        assert IsWord(node, Strip(rest[..1], disturbs));
      } else {
        var ch := node[c].children;
        ScanFindsWord(ch, tail, disturbs);
        forall j | 0 < j <= |rest|
          ensures IsWord(node, Strip(rest[..j], disturbs))
              <==> 1 < j && IsWord(ch, Strip(tail[..j - 1], disturbs))
        {
          StripDrop(rest, disturbs, j);
          var s := Strip(tail[..j - 1], disturbs);
          assert Lookup(node, [c] + s) == if s == [] then Some(node[c]) else Lookup(ch, s) by {
            assert ([c] + s)[0] == c && ([c] + s)[1..] == s;
          }
          if j == 1 { assert tail[..0] == []; }
        }
        if Scan(node, rest, disturbs).found {
          var j :| 0 < j <= |tail| && IsWord(ch, Strip(tail[..j], disturbs));
          assert IsWord(node, Strip(rest[..j + 1], disturbs));
        }
      }
    }
  }

  /** `checkWord` returns a positive length exactly when a word can be read, skipping disturbs, from `begin`. */
  lemma MatchLengthPositive(trie: TrieMap, disturbs: seq<string>, text: string, begin: nat)
    requires begin <= |text|
    ensures MatchLength(trie, disturbs, text, begin) > 0
      <==> exists j :: begin < j <= |text| && IsWord(trie, Strip(text[begin..j], disturbs))
  {
    var rest := text[begin..];
    ScanFindsWord(trie, rest, disturbs);
    forall j | begin < j <= |text| ensures text[begin..j] == rest[..j - begin] { }
    if exists j :: begin < j <= |text| && IsWord(trie, Strip(text[begin..j], disturbs)) {
      var j :| begin < j <= |text| && IsWord(trie, Strip(text[begin..j], disturbs));
      assert IsWord(trie, Strip(rest[..j - begin], disturbs));
    }
    if Scan(trie, rest, disturbs).found {
      var j :| 0 < j <= |rest| && IsWord(trie, Strip(rest[..j], disturbs));
      assert text[begin..begin + j] == rest[..j];
    }
  }

  /** Leading disturb characters are consumed and counted without moving in the trie. */
  lemma {:induction false} LeadingDisturbs(node: TrieMap, ds: string, rest: string, disturbs: seq<string>)
    requires forall k :: 0 <= k < |ds| ==> IsDisturb(ds[k], disturbs)
    ensures Scan(node, ds + rest, disturbs)
      == Walk(|ds| + Scan(node, rest, disturbs).consumed, Scan(node, rest, disturbs).found)
    decreases |ds|
  {
    if ds != [] {
      var s := ds + rest;
      assert s[0] == ds[0] && s[1..] == ds[1..] + rest;
      assert IsDisturb(s[0], disturbs);
      LeadingDisturbs(node, ds[1..], rest, disturbs);
    } else {
      assert ds + rest == rest;
    }
  }

  /**
   * A `Leaf` does not end the walk: repeating the character of a `Leaf` slot
   * keeps matching at the same level, so all `n` copies are consumed.
   */
  lemma {:induction false} LeafRepeats(node: TrieMap, c: char, n: nat, disturbs: seq<string>)
    requires c in node && node[c] == Leaf && !IsDisturb(c, disturbs)
    ensures Scan(node, seq(n, _ => c), disturbs) == Walk(n, n > 0)
  {
    if n > 0 {
      var s := seq(n, _ => c);
      assert s[1..] == seq(n - 1, _ => c);
      LeafRepeats(node, c, n - 1, disturbs);
    }
  }

  /** With an empty trie no walk ever reaches a `Leaf`. */
  lemma {:induction false} ScanEmptyTrie(rest: string, disturbs: seq<string>)
    ensures !Scan(map[], rest, disturbs).found
    decreases |rest|
  {
    if rest != [] {
      ScanEmptyTrie(rest[1..], disturbs);
    }
  }

  // ---- The scan ----

  /** After `emptyTrieTreeMap`, or on an empty text, `search` finds nothing. */
  lemma {:induction false} MatchesEmptyTrie(disturbs: seq<string>, text: string, i: nat)
    requires i <= |text|
    ensures Matches(map[], disturbs, text, i) == []
    decreases |text| - i
  {
    if i < |text| {
      ScanEmptyTrie(text[i..], disturbs);
      MatchesEmptyTrie(disturbs, text, i + 1);
    }
  }

  /** `search` finds nothing with an empty trie, and nothing in an empty text. */
  lemma SearchNothing(trie: TrieMap, disturbs: seq<string>, text: string)
    ensures SearchWords(map[], disturbs, text) == []
    ensures SearchWords(trie, disturbs, []) == []
  {
    MatchesEmptyTrie(disturbs, text, 0);
  }

  /** Each reported span is exactly what `checkWord` returns at its offset. */
  lemma {:induction false} MatchesAreWalks(trie: TrieMap, disturbs: seq<string>, text: string, i: nat)
    requires i <= |text|
    ensures forall s <- Matches(trie, disturbs, text, i) :: MatchLength(trie, disturbs, text, s.start) == s.len
    decreases |text| - i
  {
    if i < |text| {
      var n := MatchLength(trie, disturbs, text, i);
      if n > 0 {
        MatchesAreWalks(trie, disturbs, text, i + n);
        var r := Matches(trie, disturbs, text, i);
        var tail := Matches(trie, disturbs, text, i + n);
        assert r == [Span(i, n)] + tail;
        forall s <- r ensures MatchLength(trie, disturbs, text, s.start) == s.len {
          if s != Span(i, n) {
            assert s in tail;
          }
        }
      } else {
        MatchesAreWalks(trie, disturbs, text, i + 1);
      }
    }
  }

  /**
   * The scan is leftmost-greedy: at every offset from `i` on that no reported
   * span covers, `checkWord` returns 0.
   */
  lemma {:induction false} MatchesMissNothing(trie: TrieMap, disturbs: seq<string>, text: string, i: nat, p: nat)
    requires i <= p < |text|
    requires forall s <- Matches(trie, disturbs, text, i) :: !(s.start <= p < End(s))
    ensures MatchLength(trie, disturbs, text, p) == 0
    decreases |text| - i
  {
    var r := Matches(trie, disturbs, text, i);
    var n := MatchLength(trie, disturbs, text, i);
    if n > 0 {
      var tail := Matches(trie, disturbs, text, i + n);
      assert r == [Span(i, n)] + tail;
      assert Span(i, n) in r;
      assert forall s <- tail :: s in r;
      MatchesMissNothing(trie, disturbs, text, i + n, p);
    } else if p > i {
      MatchesMissNothing(trie, disturbs, text, i + 1, p);
    }
  }
}
