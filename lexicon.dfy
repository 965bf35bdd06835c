/**
 * The dictionary trie of `scramble.rb` (`WordStub`). Every node is an object
 * in the source; here the nodes live in one arena, a sequence indexed by node
 * identity, and a node's `@hash` maps a token to the index of its child. The
 * root is node 0. The ghost sequence `keys` records, for every node, the token
 * path that leads to it from the root; it is what the invariants talk about.
 */
module Lexicon {
  import opened Wrappers
  import opened Text

  /** A `WordStub`: the prefix `@word` it stands for and its `@hash` from token to child node. */
  datatype Stub = Stub(word: string, hash: map<string, nat>)

  /** The sentinel key whose presence marks the end of a word. */
  const EndMark: string := "."

  /** `is_word?`: the sentinel key is present. */
  predicate IsWord(s: Stub) {
    EndMark in s.hash
  }

  /** `next_letters`: the keys of the node's hash. */
  function NextLetters(s: Stub): set<string> {
    s.hash.Keys
  }

  /** Following tokens from node `n` by read-only lookups; nothing when a token has no child. */
  function Walk(nodes: seq<Stub>, n: nat, s: seq<string>): Option<nat>
    decreases |s|
  {
    if s == [] then Some(n)
    else if n < |nodes| && s[0] in nodes[n].hash then Walk(nodes, nodes[n].hash[s[0]], s[1..])
    else None
  }

  /** Every child index names a node of the arena. */
  ghost predicate Closed(nodes: seq<Stub>) {
    forall n, t :: 0 <= n < |nodes| && t in nodes[n].hash ==> nodes[n].hash[t] < |nodes|
  }

  /** The edge from `n` by `t` respects the prefix invariant: the child's word and key extend the parent's by `t`. */
  ghost predicate ChildOk(nodes: seq<Stub>, keys: seq<seq<string>>, n: nat, t: string)
    requires |nodes| == |keys| && n < |nodes| && t in nodes[n].hash
  {
    var c := nodes[n].hash[t];
    c < |nodes| && nodes[c].word == nodes[n].word + t && keys[c] == keys[n] + [t]
  }

  /** The trie invariant: a root with empty word and key, every edge extending word and key by its token, and every node reachable from the root along its key. */
  ghost predicate Trie(nodes: seq<Stub>, keys: seq<seq<string>>) {
    && |nodes| == |keys| >= 1
    && nodes[0].word == "" && keys[0] == []
    && (forall n, t :: 0 <= n < |nodes| && t in nodes[n].hash ==> ChildOk(nodes, keys, n, t))
    && (forall m :: 0 <= m < |nodes| ==> Walk(nodes, 0, keys[m]) == Some(m))
  }

  lemma TrieIsClosed(nodes: seq<Stub>, keys: seq<seq<string>>)
    requires Trie(nodes, keys)
    ensures Closed(nodes)
  {
    forall n, t | 0 <= n < |nodes| && t in nodes[n].hash ensures nodes[n].hash[t] < |nodes| {
      assert ChildOk(nodes, keys, n, t);
    }
  }

  /** Walking `s` and then `t` is walking `s + [t]`. */
  lemma {:induction false} WalkSnoc(nodes: seq<Stub>, n: nat, s: seq<string>, t: string)
    ensures Walk(nodes, n, s + [t]) ==
      match Walk(nodes, n, s)
      case Some(m) => if m < |nodes| && t in nodes[m].hash then Some(nodes[m].hash[t]) else None
      case None => None
    decreases |s|
  {
    if s == [] {
      assert [] + [t] == [t];
    } else {
      assert (s + [t])[1..] == s[1..] + [t];
      if n < |nodes| && s[0] in nodes[n].hash {
        WalkSnoc(nodes, nodes[n].hash[s[0]], s[1..], t);
      }
    }
  }

  /**
   * Walking from a node along `s` ends at a node whose key and word extend
   * the start's by `s`: the prefix invariant carried along any path.
   */
  lemma {:induction false} WalkExtendsKey(nodes: seq<Stub>, keys: seq<seq<string>>, n: nat, s: seq<string>)
    requires Trie(nodes, keys) && n < |nodes| && Walk(nodes, n, s).Some?
    ensures var m := Walk(nodes, n, s).value;
      m < |nodes| && keys[m] == keys[n] + s && nodes[m].word == nodes[n].word + Concat(s)
    decreases |s|
  {
    if s != [] {
      var c := nodes[n].hash[s[0]];
      assert ChildOk(nodes, keys, n, s[0]);
      WalkExtendsKey(nodes, keys, c, s[1..]);
      assert s == [s[0]] + s[1..];
      ConcatCons(s[0], s[1..]);
    }
  }

  /** The root paths of the trie are exactly its keys, and the node a root path reaches is the one with that key. */
  lemma RootPathsAreKeys(nodes: seq<Stub>, keys: seq<seq<string>>, s: seq<string>)
    requires Trie(nodes, keys)
    ensures Walk(nodes, 0, s).Some? <==> s in keys
    ensures Walk(nodes, 0, s).Some? ==> keys[Walk(nodes, 0, s).value] == s
  {
    if Walk(nodes, 0, s).Some? {
      WalkExtendsKey(nodes, keys, 0, s);
      var m := Walk(nodes, 0, s).value;
      assert keys[m] == s;
      assert s in keys;
    }
    if s in keys {
      var m :| 0 <= m < |keys| && keys[m] == s;
      assert Walk(nodes, 0, keys[m]) == Some(m);
    }
  }

  /** A node reached from the root along `s` stands for the word `s` spells: the root's word is empty and each edge appends its token. */
  lemma WordIsSpelledPath(nodes: seq<Stub>, keys: seq<seq<string>>, s: seq<string>)
    requires Trie(nodes, keys) && Walk(nodes, 0, s).Some?
    ensures Walk(nodes, 0, s).value < |nodes| && nodes[Walk(nodes, 0, s).value].word == Concat(s)
  {
    WalkExtendsKey(nodes, keys, 0, s);
  }

  /** A node is terminal exactly when its key followed by the end marker is a key too. */
  lemma TerminalIffMarkedKey(nodes: seq<Stub>, keys: seq<seq<string>>, m: nat)
    requires Trie(nodes, keys) && m < |nodes|
    ensures IsWord(nodes[m]) <==> keys[m] + [EndMark] in keys
  {
    WalkSnoc(nodes, 0, keys[m], EndMark);
    RootPathsAreKeys(nodes, keys, keys[m] + [EndMark]);
    if IsWord(nodes[m]) {
      assert ChildOk(nodes, keys, m, EndMark);
    }
  }

  /** `nodes'` keeps every node and edge of `nodes`, possibly adding more. */
  ghost predicate Extends(nodes: seq<Stub>, nodes': seq<Stub>) {
    |nodes| <= |nodes'| &&
    forall n, t :: 0 <= n < |nodes| && t in nodes[n].hash ==> t in nodes'[n].hash && nodes'[n].hash[t] == nodes[n].hash[t]
  }

  /** A walk that succeeds keeps succeeding, to the same node, once nodes and edges are added. */
  lemma {:induction false} WalkPersists(nodes: seq<Stub>, nodes': seq<Stub>, n: nat, s: seq<string>)
    requires Extends(nodes, nodes') && Closed(nodes) && n < |nodes| && Walk(nodes, n, s).Some?
    ensures Walk(nodes', n, s) == Walk(nodes, n, s)
    decreases |s|
  {
    if s != [] {
      WalkPersists(nodes, nodes', nodes[n].hash[s[0]], s[1..]);
    }
  }

  /** The arena after `@hash[letter]` creates the missing child `WordStub.new(word + letter)` of node `n`. */
  function AddChild(nodes: seq<Stub>, n: nat, letter: string): (r: seq<Stub>)
    requires n < |nodes|
    ensures |r| == |nodes| + 1 && r[|nodes|] == Stub(nodes[n].word + letter, map[])
    ensures r[n].word == nodes[n].word && r[n].hash.Keys == nodes[n].hash.Keys + {letter} && r[n].hash[letter] == |nodes|
    ensures forall k :: 0 <= k < |nodes| && k != n ==> r[k] == nodes[k]
    ensures letter !in nodes[n].hash ==> Extends(nodes, r)
  {
    nodes[n := Stub(nodes[n].word, nodes[n].hash[letter := |nodes|])] + [Stub(nodes[n].word + letter, map[])]
  }

  /** Creating a missing child keeps the trie invariant. */
  lemma AddChildKeepsTrie(nodes: seq<Stub>, keys: seq<seq<string>>, n: nat, letter: string)
    requires Trie(nodes, keys) && n < |nodes| && letter !in nodes[n].hash
    ensures Trie(AddChild(nodes, n, letter), keys + [keys[n] + [letter]])
  {
    var nodes', keys' := AddChild(nodes, n, letter), keys + [keys[n] + [letter]];
    TrieIsClosed(nodes, keys);
    assert Extends(nodes, nodes');
    forall p, t | 0 <= p < |nodes'| && t in nodes'[p].hash ensures ChildOk(nodes', keys', p, t) {
      if p < |nodes| && !(p == n && t == letter) {
        assert ChildOk(nodes, keys, p, t);
      }
    }
    forall m | 0 <= m < |nodes'| ensures Walk(nodes', 0, keys'[m]) == Some(m) {
      if m < |nodes| {
        WalkPersists(nodes, nodes', 0, keys[m]);
      } else {
        WalkPersists(nodes, nodes', 0, keys[n]);
        WalkSnoc(nodes', 0, keys[n], letter);
      }
    }
  }

  /** `s` is a prefix of `t`; named so that quantifiers over the prefixes of a path have a term to trigger on. */
  predicate IsPrefix<T(==)>(s: seq<T>, t: seq<T>) {
    s <= t
  }

  /** The prefixes of `t + [x]` are the prefixes of `t` and `t + [x]` itself. */
  lemma PrefixesOfSnoc<T>(t: seq<T>, x: T)
    ensures forall s :: IsPrefix(s, t + [x]) <==> IsPrefix(s, t) || s == t + [x]
  {
    forall s | IsPrefix(s, t + [x]) && |s| <= |t| ensures IsPrefix(s, t) {
      assert s == (t + [x])[..|s|] == t[..|s|];
    }
  }

  predicate Accepted(line: string, lo: int, hi: int) {
    lo <= |Chomp(line)| <= hi
  }

  /** The tokens `from_dict` walks for a line: the chomped line cut into tokens, each downcased. */
  function WordTokens(line: string): seq<string> {
    var ts := Tokenize(Chomp(line));
    seq(|ts|, k requires 0 <= k < |ts| => Downcase(ts[k]))
  }

  /** The whole path a line inserts: its tokens, then the end marker. */
  function Marked(line: string): seq<string> {
    WordTokens(line) + [EndMark]
  }

  /** `s` is a root path of the trie `from_dict` builds from the first `count` lines. */
  ghost predicate Inserted(dict: seq<string>, lo: int, hi: int, count: nat, s: seq<string>)
    requires count <= |dict|
  {
    s == [] || exists k :: 0 <= k < count && Accepted(dict[k], lo, hi) && IsPrefix(s, Marked(dict[k]))
  }

  /** The keys of a trie are the root paths `from_dict` inserts for `dict`. */
  ghost predicate Built(keys: seq<seq<string>>, dict: seq<string>, lo: int, hi: int) {
    forall s :: s in keys <==> Inserted(dict, lo, hi, |dict|, s)
  }

  /** Walking `s` from the root ends at a terminal node. */
  ghost predicate Terminal(nodes: seq<Stub>, s: seq<string>) {
    match Walk(nodes, 0, s)
    case Some(m) => m < |nodes| && IsWord(nodes[m])
    case None => false
  }

  /** No accepted line contains the sentinel as a token, i.e. no accepted line contains a `.`. */
  ghost predicate NoSentinel(dict: seq<string>, lo: int, hi: int) {
    forall k :: 0 <= k < |dict| && Accepted(dict[k], lo, hi) ==> EndMark !in WordTokens(dict[k])
  }

  /**
   * In the trie built from `dict`, the path `s` ends at a terminal node exactly
   * when `s` followed by the end marker is a prefix of the marked path of some
   * accepted line.
   */
  lemma TerminalIffInserted(nodes: seq<Stub>, keys: seq<seq<string>>, dict: seq<string>, lo: int, hi: int, s: seq<string>)
    requires Trie(nodes, keys) && Built(keys, dict, lo, hi)
    ensures Terminal(nodes, s) <==>
      exists k :: 0 <= k < |dict| && Accepted(dict[k], lo, hi) && IsPrefix(s + [EndMark], Marked(dict[k]))
  {
    WalkSnoc(nodes, 0, s, EndMark);
    RootPathsAreKeys(nodes, keys, s + [EndMark]);
    RootPathsAreKeys(nodes, keys, s);
    if Walk(nodes, 0, s).Some? {
      var m := Walk(nodes, 0, s).value;
      TerminalIffMarkedKey(nodes, keys, m);
    }
    assert s + [EndMark] in keys <==> Inserted(dict, lo, hi, |dict|, s + [EndMark]);
  }

  /** Every accepted line is a word of the trie: its downcased tokens lead from the root to a terminal node whose word they spell. */
  lemma AcceptedLineIsWord(nodes: seq<Stub>, keys: seq<seq<string>>, dict: seq<string>, lo: int, hi: int, k: nat)
    requires Trie(nodes, keys) && Built(keys, dict, lo, hi)
    requires k < |dict| && Accepted(dict[k], lo, hi)
    ensures Terminal(nodes, WordTokens(dict[k]))
    ensures nodes[Walk(nodes, 0, WordTokens(dict[k])).value].word == Concat(WordTokens(dict[k]))
  {
    var path := WordTokens(dict[k]);
    TerminalIffInserted(nodes, keys, dict, lo, hi, path);
    assert IsPrefix(path + [EndMark], Marked(dict[k]));
    WordIsSpelledPath(nodes, keys, path);
  }

  /** When no accepted line contains a `.`, the terminal nodes are exactly the accepted lines' token paths. */
  lemma TerminalIsAcceptedLine(nodes: seq<Stub>, keys: seq<seq<string>>, dict: seq<string>, lo: int, hi: int, s: seq<string>)
    requires Trie(nodes, keys) && Built(keys, dict, lo, hi) && NoSentinel(dict, lo, hi)
    ensures Terminal(nodes, s) <==> exists k :: 0 <= k < |dict| && Accepted(dict[k], lo, hi) && WordTokens(dict[k]) == s
  {
    TerminalIffInserted(nodes, keys, dict, lo, hi, s);
    if Terminal(nodes, s) {
      var k :| 0 <= k < |dict| && Accepted(dict[k], lo, hi) && IsPrefix(s + [EndMark], Marked(dict[k]));
      MarkedPrefixIsPath(WordTokens(dict[k]), s);
    }
    if exists k :: 0 <= k < |dict| && Accepted(dict[k], lo, hi) && WordTokens(dict[k]) == s {
      var k :| 0 <= k < |dict| && Accepted(dict[k], lo, hi) && WordTokens(dict[k]) == s;
      assert IsPrefix(s + [EndMark], Marked(dict[k]));
    }
  }

  /** When a path holds no end marker, the only path that the end marker closes inside it is the whole path. */
  lemma MarkedPrefixIsPath(path: seq<string>, s: seq<string>)
    requires EndMark !in path && IsPrefix(s + [EndMark], path + [EndMark])
    ensures s == path
  {
    assert (s + [EndMark])[|s|] == EndMark == (path + [EndMark])[|s|];
    assert forall i :: 0 <= i < |path| ==> path[i] != EndMark;
    assert |s| == |path|;
    assert s == (s + [EndMark])[..|s|] == (path + [EndMark])[..|s|] == path;
  }

  /** A line outside the length range contributes nothing: the trie is the one built without it. */
  lemma RejectedLineAddsNothing(dict: seq<string>, lo: int, hi: int, line: string, s: seq<string>)
    requires !Accepted(line, lo, hi)
    ensures Inserted(dict + [line], lo, hi, |dict| + 1, s) <==> Inserted(dict, lo, hi, |dict|, s)
  {
    var more := dict + [line];
    if s != [] {
      if Inserted(more, lo, hi, |more|, s) {
        var l :| 0 <= l < |more| && Accepted(more[l], lo, hi) && IsPrefix(s, Marked(more[l]));
        assert l < |dict| && more[l] == dict[l];
        InsertedBy(dict, lo, hi, |dict|, s, l);
      }
      if Inserted(dict, lo, hi, |dict|, s) {
        var l :| 0 <= l < |dict| && Accepted(dict[l], lo, hi) && IsPrefix(s, Marked(dict[l]));
        assert more[l] == dict[l];
        InsertedBy(more, lo, hi, |more|, s, l);
      }
    }
  }

  lemma InsertedBy(dict: seq<string>, lo: int, hi: int, count: nat, s: seq<string>, l: nat)
    requires l < count <= |dict| && Accepted(dict[l], lo, hi) && IsPrefix(s, Marked(dict[l]))
    ensures Inserted(dict, lo, hi, count, s)
  {
  }

  /**
   * The sentinel `.` is also an ordinary token: the line `e.g.` (length 4,
   * accepted by `3..8`) inserts the path `e . g . .`, so the node for `e`
   * gains the key `.` and the single letter `e` becomes a word of the trie.
   */
  lemma DotInLineMarksPrefix(nodes: seq<Stub>, keys: seq<seq<string>>)
    requires Trie(nodes, keys) && Built(keys, ["e.g."], 3, 8)
    ensures WordTokens("e.g.") == ["e", ".", "g", "."]
    ensures Terminal(nodes, ["e"]) && nodes[Walk(nodes, 0, ["e"]).value].word == "e"
  {
    var line := "e.g.";
    assert Chomp(line) == line;
    assert line[1..] == ".g." && line[2..] == "g." && line[3..] == "." && line[4..] == "";
    assert Tokenize(line[3..]) == ["."];
    assert Tokenize(line[2..]) == ["g", "."];
    assert Tokenize(line[1..]) == [".", "g", "."];
    assert Tokenize(line) == ["e", ".", "g", "."];
    assert Downcase("e") == "e" && Downcase(".") == "." && Downcase("g") == "g";
    assert WordTokens(line) == ["e", ".", "g", "."];
    TerminalIffInserted(nodes, keys, [line], 3, 8, ["e"]);
    assert Marked(line) == ["e", ".", "g", ".", "."];
    assert ["e"] + [EndMark] == Marked(line)[..2];
    assert Accepted([line][0], 3, 8) && IsPrefix(["e"] + [EndMark], Marked([line][0]));
    WordIsSpelledPath(nodes, keys, ["e"]);
    assert Concat(["e"]) == Concat([]) + "e";
  }

  class Lexicon {
    var nodes: seq<Stub>
    ghost var keys: seq<seq<string>>

    ghost predicate Valid()
      reads this
    {
      Trie(nodes, keys)
    }

    /** `WordStub.new ""`: the root alone, with an empty hash. */
    constructor ()
      ensures Valid() && nodes == [Stub("", map[])] && keys == [[]]
    {
      nodes := [Stub("", map[])];
      keys := [[]];
    }

    /**
     * `next(letter)`, i.e. `@hash[letter]` with the auto-vivifying default of
     * `dict_hash`: the existing child, or a new child whose word is the
     * parent's word plus `letter`, stored under `letter`.
     */
    method Next(n: nat, letter: string) returns (child: nat)
      requires Valid() && n < |nodes|
      modifies this
      ensures Valid()
      ensures child < |nodes| && keys[child] == old(keys[n]) + [letter]
      ensures nodes[child].word == old(nodes[n].word) + letter
      ensures forall s :: s in keys <==> s in old(keys) || s == old(keys[n]) + [letter]
      ensures letter in old(nodes[n].hash) ==>
        nodes == old(nodes) && keys == old(keys) && child == old(nodes[n].hash[letter])
      ensures letter !in old(nodes[n].hash) ==>
        child == |old(nodes)| && nodes == AddChild(old(nodes), n, letter) && keys == old(keys) + [old(keys[n]) + [letter]]
    {
      if letter in nodes[n].hash {
        child := nodes[n].hash[letter];
        assert ChildOk(nodes, keys, n, letter);
      } else {
        AddChildKeepsTrie(nodes, keys, n, letter);
        child := |nodes|;
        nodes := AddChild(nodes, n, letter);
        keys := keys + [keys[n] + [letter]];
      }
    }

    /**
     * One pass of the loop of `from_dict`: a line outside the length range is
     * skipped; otherwise its tokens are followed from the root with `next`,
     * creating nodes as needed, and the last node gets the end marker.
     */
    method AddLine(line: string, lo: int, hi: int)
      requires Valid()
      modifies this
      ensures Valid()
      ensures forall s :: s in keys <==> s in old(keys) || (Accepted(line, lo, hi) && IsPrefix(s, Marked(line)))
    {
      if lo <= |Chomp(line)| <= hi {
        var letters := Tokenize(Chomp(line));
        ghost var path := WordTokens(line);
        var stub: nat := 0;
        assert |path| == |letters|;
        for j := 0 to |letters|
          invariant Valid() && stub < |nodes|
          invariant keys[stub] == path[..j]
          invariant forall s :: s in keys <==> s in old(keys) || IsPrefix(s, path[..j])
        {
          assert path[j] == Downcase(letters[j]);
          stub := Next(stub, Downcase(letters[j]));
          assert path[..j + 1] == path[..j] + [path[j]];
          PrefixesOfSnoc(path[..j], path[j]);
        }
        var _ := Next(stub, EndMark);
        assert path[..|letters|] == path;
        PrefixesOfSnoc(path, EndMark);
      }
    }

    /**
     * `WordStub.from_dict` over the lines of the word list, starting from a
     * fresh root. The trie's root paths are then exactly the empty path and
     * the prefixes of the marked token paths of the accepted lines.
     */
    static method FromDict(dict: seq<string>, lo: int, hi: int) returns (lex: Lexicon)
      ensures fresh(lex) && lex.Valid()
      ensures Built(lex.keys, dict, lo, hi)
    {
      lex := new Lexicon();
      for i := 0 to |dict|
        invariant lex.Valid()
        invariant forall s :: s in lex.keys <==> Inserted(dict, lo, hi, i, s)
      {
        lex.AddLine(dict[i], lo, hi);
        forall s ensures Inserted(dict, lo, hi, i + 1, s) <==> Inserted(dict, lo, hi, i, s) || (Accepted(dict[i], lo, hi) && IsPrefix(s, Marked(dict[i]))) {
        }
      }
    }
  }
}
