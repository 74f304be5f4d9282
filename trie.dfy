/**
 * The sensitive-word trie of src/Sensitive.php: a nested map keyed by single
 * characters. A slot holds either `Leaf` (the literal `false` the source stores
 * for a freshly created key) or `Branch` (a nested map). There is no separate
 * "is word" flag: a word is a path whose last slot is still a `Leaf`.
 */
module Trie {
  import opened Wrappers

  datatype Node = Leaf | Branch(children: map<char, Node>)

  /** The root of the trie, and every nested level of it. */
  type TrieMap = map<char, Node>

  /** The map stored in a slot; a `Leaf` behaves as an empty map when indexed. */
  function Children(n: Node): TrieMap {
    match n
    case Leaf => map[]
    case Branch(ch) => ch
  }

  /** The slot under key `c`, or the `Leaf` that insertion creates when it is missing. */
  function SlotOrLeaf(m: TrieMap, c: char): Node {
    if c in m then m[c] else Leaf
  }

  /**
   * The slot reached by following the keys of `w` from `m`; the empty path
   * reaches `m` itself. `None` when a key is missing or the path runs through
   * a `Leaf`.
   */
  function Lookup(m: TrieMap, w: seq<char>): Option<Node>
    decreases |w|
  {
    if w == [] then Some(Branch(m))
    else if w[0] !in m then None
    else if |w| == 1 then Some(m[w[0]])
    else Lookup(Children(m[w[0]]), w[1..])
  }

  /** `w` is a sensitive word of the trie: its path ends in a `Leaf`. */
  predicate IsWord(m: TrieMap, w: seq<char>) {
    Lookup(m, w) == Some(Leaf)
  }

  /** `p` is a prefix of `w`, possibly `w` itself. */
  predicate IsPrefix(p: seq<char>, w: seq<char>) {
    |p| <= |w| && w[..|p|] == p
  }

  /**
   * Reference definition of inserting the (already trimmed) word `w`: every
   * missing key along the path is created as a `Leaf`, and every slot the path
   * descends through becomes a `Branch` (a `Leaf` there is turned into a map).
   */
  function Insert(m: TrieMap, w: seq<char>): TrieMap
    decreases |w|
  {
    if w == [] then m
    else
      var slot := SlotOrLeaf(m, w[0]);
      m[w[0] := if |w| == 1 then slot else Branch(Insert(Children(slot), w[1..]))]
  }

  /**
   * One step of the insertion loop. The source keeps a reference to the slot
   * reached so far; the model names that slot by its `path` from the root.
   * If key `c` is not set there it is assigned `Leaf`; assigning into a slot
   * that holds a `Leaf` first turns it into a map.
   */
  function Put(m: TrieMap, path: seq<char>, c: char): TrieMap
    decreases |path|
  {
    if path == [] then m[c := SlotOrLeaf(m, c)]
    else m[path[0] := Branch(Put(Children(SlotOrLeaf(m, path[0])), path[1..], c))]
  }

  /** Characters `trim` removes from both ends of a word before insertion. */
  predicate IsTrimChar(c: char) {
    c == ' ' || c == '\t' || c == '\n' || c == '\r' || c == '\0' || c == '\U{B}'
    || c == '\'' || c == '"' || c == '`'
  }

  /** The offset of the first non-trim character of `s` at or after `i`, or `|s|`. */
  function TrimStart(s: string, i: nat): (n: nat)
    requires i <= |s|
    ensures i <= n <= |s|
    ensures forall k :: i <= k < n ==> IsTrimChar(s[k])
    ensures n < |s| ==> !IsTrimChar(s[n])
    decreases |s| - i
  {
    if i < |s| && IsTrimChar(s[i]) then TrimStart(s, i + 1) else i
  }

  /** The offset just past the last non-trim character of `s` in `[lo, j)`, or `lo`. */
  function TrimEnd(s: string, lo: nat, j: nat): (n: nat)
    requires lo <= j <= |s|
    ensures lo <= n <= j
    ensures forall k :: n <= k < j ==> IsTrimChar(s[k])
    ensures n > lo ==> !IsTrimChar(s[n - 1])
    decreases j - lo
  {
    if j > lo && IsTrimChar(s[j - 1]) then TrimEnd(s, lo, j - 1) else j
  }

  /** The word as `addToTree` inserts it: `s` with its trim characters removed at both ends. */
  function Trim(s: string): (r: string)
    ensures var i := TrimStart(s, 0);
      i + |r| <= |s| && r == s[i..i + |r|]
      && (forall k :: 0 <= k < i ==> IsTrimChar(s[k]))
      && (forall k :: i + |r| <= k < |s| ==> IsTrimChar(s[k]))
    ensures r != [] ==> !IsTrimChar(r[0]) && !IsTrimChar(r[|r| - 1])
  {
    var i := TrimStart(s, 0);
    s[i..TrimEnd(s, i, |s|)]
  }

  /** Inserting every word of `words`, trimmed, in order (`addWords`). */
  function InsertAll(m: TrieMap, words: seq<string>): TrieMap
    decreases |words|
  {
    if words == [] then m else InsertAll(Insert(m, Trim(words[0])), words[1..])
  }

  /** The insertion loop is `Insert` built one character at a time. */
  lemma {:induction false} PutExtends(m: TrieMap, p: seq<char>, c: char)
    ensures Put(Insert(m, p), p, c) == Insert(m, p + [c])
    decreases |p|
  {
    if p == [] {
      assert [c][1..] == [];
    } else {
      var slot := SlotOrLeaf(m, p[0]);
      assert (p + [c])[0] == p[0] && (p + [c])[1..] == p[1..] + [c];
      if |p| == 1 {
        assert p[1..] == [];
        assert [c][1..] == [];
      } else {
        PutExtends(Children(slot), p[1..], c);
      }
    }
  }

  /** Inserting a word whose path already exists changes nothing. */
  lemma {:induction false} InsertExisting(m: TrieMap, w: seq<char>)
    requires Lookup(m, w).Some?
    ensures Insert(m, w) == m
    decreases |w|
  {
    if |w| > 1 {
      InsertExisting(Children(m[w[0]]), w[1..]);
      assert m[w[0]].Branch?;
    }
  }

  /**
   * After inserting `w`, its path exists; it ends in a `Leaf` (is a word)
   * unless the path already existed, in which case it is left as it was.
   */
  lemma {:induction false} LookupInsert(m: TrieMap, w: seq<char>)
    requires w != []
    ensures Lookup(Insert(m, w), w) == if Lookup(m, w).Some? then Lookup(m, w) else Some(Leaf)
    decreases |w|
  {
    if |w| > 1 {
      var slot := SlotOrLeaf(m, w[0]);
      LookupInsert(Children(slot), w[1..]);
      if w[0] in m {
        assert Lookup(m, w) == Lookup(Children(slot), w[1..]);
      } else {
        assert Lookup(Children(slot), w[1..]) == None;
      }
    }
  }

  /** Every prefix of an existing path is itself a path. */
  lemma {:induction false} LookupPrefix(m: TrieMap, w: seq<char>, p: seq<char>)
    requires Lookup(m, w).Some? && IsPrefix(p, w)
    ensures Lookup(m, p).Some?
    decreases |w|
  {
    if |p| > 1 {
      assert p[0] == w[0] && IsPrefix(p[1..], w[1..]);
      LookupPrefix(Children(m[w[0]]), w[1..], p[1..]);
    }
  }

  /** Re-inserting a prefix of an existing path (a word or a longer word's start) is a no-op. */
  lemma InsertPrefixIsNoOp(m: TrieMap, w: seq<char>, p: seq<char>)
    requires Lookup(m, w).Some? && IsPrefix(p, w)
    ensures Insert(m, p) == m
  {
    LookupPrefix(m, w, p);
    InsertExisting(m, p);
  }

  /** Re-inserting a word is a no-op. */
  lemma InsertIdempotent(m: TrieMap, w: seq<char>)
    ensures Insert(Insert(m, w), w) == Insert(m, w)
  {
    if w != [] {
      LookupInsert(m, w);
      InsertExisting(Insert(m, w), w);
    }
  }

  /** Insertion never removes a path. */
  lemma {:induction false} InsertKeepsPaths(m: TrieMap, w: seq<char>, p: seq<char>)
    requires Lookup(m, p).Some?
    ensures Lookup(Insert(m, w), p).Some?
    decreases |w|
  {
    if w != [] && |p| > 1 && p[0] == w[0] && |w| > 1 {
      InsertKeepsPaths(Children(m[p[0]]), w[1..], p[1..]);
    }
  }

  /** Insertion only adds paths that are prefixes of the inserted word. */
  lemma {:induction false} InsertAddsOnlyPrefixes(m: TrieMap, w: seq<char>, p: seq<char>)
    requires Lookup(Insert(m, w), p).Some?
    ensures Lookup(m, p).Some? || IsPrefix(p, w)
    decreases |w|
  {
    if w != [] && p != [] && p[0] == w[0] {
      if |p| > 1 {
        if |w| == 1 {
          assert Insert(m, w) == m[w[0] := SlotOrLeaf(m, w[0])];
          assert Lookup(Insert(m, w), p) == Lookup(Children(SlotOrLeaf(m, w[0])), p[1..]);
          assert w[0] in m;
        } else {
          var slot := SlotOrLeaf(m, w[0]);
          InsertAddsOnlyPrefixes(Children(slot), w[1..], p[1..]);
          if IsPrefix(p[1..], w[1..]) {
            assert w[..|p|] == [w[0]] + w[1..][..|p| - 1];
            assert p == [p[0]] + p[1..];
          } else {
            assert w[0] in m;
          }
        }
      } else {
        assert w[..1] == [w[0]];
      }
    }
  }

  /**
   * What insertion does to an existing word `p`: it stays a word unless it is
   * a strict prefix of the inserted word, in which case its `Leaf` is turned
   * into a map and it stops being a word.
   */
  lemma {:induction false} InsertWordStays(m: TrieMap, w: seq<char>, p: seq<char>)
    requires IsWord(m, p)
    ensures IsWord(Insert(m, w), p) <==> !(IsPrefix(p, w) && |p| < |w|)
    decreases |w|
  {
    if w != [] && p[0] == w[0] {
      if |p| == 1 {
        if |w| > 1 {
          assert w[..1] == p;
        }
      } else {
        InsertWordStays(Children(m[p[0]]), w[1..], p[1..]);
        if |w| > 1 {
          assert IsPrefix(p, w) <==> IsPrefix(p[1..], w[1..]) by {
            if IsPrefix(p[1..], w[1..]) {
              assert w[..|p|] == [w[0]] + w[1..][..|p| - 1];
              assert p == [p[0]] + p[1..];
            }
            if IsPrefix(p, w) {
              assert w[1..][..|p| - 1] == w[..|p|][1..];
            }
          }
        }
      }
    }
  }

  /** `addWords` builds on the existing trie: every existing path survives. */
  lemma {:induction false} InsertAllKeepsPaths(m: TrieMap, words: seq<string>, p: seq<char>)
    requires Lookup(m, p).Some?
    ensures Lookup(InsertAll(m, words), p).Some?
    decreases |words|
  {
    if words != [] {
      InsertKeepsPaths(m, Trim(words[0]), p);
      InsertAllKeepsPaths(Insert(m, Trim(words[0])), words[1..], p);
    }
  }

  /** A word that trims to nothing leaves the trie unchanged. */
  lemma BlankWordIsNoOp(m: TrieMap, s: string)
    requires forall k :: 0 <= k < |s| ==> IsTrimChar(s[k])
    ensures Insert(m, Trim(s)) == m
  {
  }
}
