/**
 * The route-name trie of the traffic planner (trafic.cpp): `insert`,
 * `search` and `autocomplete` over a tree of nodes, each with one child per
 * next character and a flag for "a word ends here". The linked tree is a
 * datatype here; the class keeps its root and the set of words inserted so
 * far, which is what `search` and `autocomplete` are specified against.
 */
module RouteTrie {
  import opened Wrappers

  datatype Node = Node(children: map<char, Node>, isEnd: bool)

  const Empty := Node(map[], false)

  /** The walk `search` makes: true when the path spells `s` and ends on a word. */
  function Spells(t: Node, s: string): bool
    decreases |s|
  {
    if s == [] then t.isEnd
    else s[0] in t.children && Spells(t.children[s[0]], s[1..])
  }

  /** The node reached by following `s`, or None when a character is missing. */
  function Descend(t: Node, s: string): (r: Option<Node>)
    decreases |s|
  {
    if s == [] then Some(t)
    else if s[0] in t.children then Descend(t.children[s[0]], s[1..])
    else None
  }

  /** `insert`: follows `s`, creating missing children, and marks its end. */
  function Inserted(t: Node, s: string): (r: Node)
    decreases |s|
  {
    if s == [] then t.(isEnd := true)
    else
      var child := if s[0] in t.children then t.children[s[0]] else Empty;
      t.(children := t.children[s[0] := Inserted(child, s[1..])])
  }

  /** Nothing is spelled by a fresh node. */
  lemma {:induction false} EmptySpellsNothing(s: string)
    ensures !Spells(Empty, s)
  {
  }

  /** After inserting `s`, exactly `s` and the words spelled before are spelled. */
  lemma {:induction false} InsertSpells(t: Node, s: string, x: string)
    ensures Spells(Inserted(t, s), x) <==> x == s || Spells(t, x)
    decreases |s|
  {
    if s != [] && x != [] {
      var child := if s[0] in t.children then t.children[s[0]] else Empty;
      if x[0] == s[0] {
        InsertSpells(child, s[1..], x[1..]);
        if s[0] !in t.children {
          EmptySpellsNothing(x[1..]);
        }
        assert x == s <==> x[1..] == s[1..];
      }
    }
  }

  /** Descending a prefix and spelling the rest is spelling the whole. */
  lemma {:induction false} DescendSpells(t: Node, p: string, s: string)
    ensures Spells(t, p + s) <==> Descend(t, p).Some? && Spells(Descend(t, p).value, s)
    decreases |p|
  {
    if p != [] {
      assert (p + s)[0] == p[0] && (p + s)[1..] == p[1..] + s;
      if p[0] in t.children {
        DescendSpells(t.children[p[0]], p[1..], s);
      }
    } else {
      assert p + s == s;
    }
  }

  /**
   * The words below a node, read from it: what the recursive `dfs` of
   * `autocomplete` collects (its order follows `unordered_map` iteration and
   * is not modelled).
   */
  function Collect(t: Node): (r: set<string>)
  {
    (if t.isEnd then {[]} else {}) + (set c, s | c in t.children && s in Collect(t.children[c]) :: [c] + s)
  }

  lemma {:induction false} CollectSpells(t: Node, s: string)
    ensures s in Collect(t) <==> Spells(t, s)
    decreases |s|
  {
    if s != [] {
      if s[0] in t.children {
        CollectSpells(t.children[s[0]], s[1..]);
        assert [s[0]] + s[1..] == s;
      }
    }
  }

  class Trie {
    var root: Node
    /** The words inserted so far. */
    ghost var words: set<string>

    ghost predicate Valid()
      reads this
    {
      forall x :: Spells(root, x) <==> x in words
    }

    constructor()
      ensures Valid() && words == {}
    {
      root := Empty;
      words := {};
      new;
      forall x ensures Spells(root, x) <==> x in words {
        EmptySpellsNothing(x);
      }
    }

    method Insert(s: string)
      requires Valid()
      modifies this
      ensures Valid() && words == old(words) + {s}
      ensures root == Inserted(old(root), s)
    {
      ghost var r0 := root;
      root := Inserted(root, s);
      words := words + {s};
      forall x ensures Spells(root, x) <==> x in words {
        InsertSpells(r0, s, x);
      }
    }

    /**
     * `search`: true exactly for the inserted words; a proper prefix of a
     * word is found only if it was inserted itself.
     */
    method Search(s: string) returns (found: bool)
      requires Valid()
      ensures found <==> s in words
    {
      var node := root;
      var i := 0;
      while i < |s|
        invariant 0 <= i <= |s|
        invariant Spells(root, s) <==> Spells(node, s[i..])
      {
        if s[i] !in node.children {
          return false;
        }
        assert s[i..][1..] == s[i + 1..];
        node := node.children[s[i]];
        i := i + 1;
      }
      found := node.isEnd;
    }

    /**
     * `autocomplete(prefix)`: exactly the inserted words that start with
     * `prefix`, and nothing when the prefix path is missing.
     */
    method Autocomplete(prefix: string) returns (results: set<string>)
      requires Valid()
      ensures forall w :: w in results <==> w in words && prefix <= w
    {
      var node := root;
      var i := 0;
      while i < |prefix|
        invariant 0 <= i <= |prefix|
        invariant Descend(root, prefix) == Descend(node, prefix[i..])
      {
        if prefix[i] !in node.children {
          NoCompletion(prefix);
          return {};
        }
        assert prefix[i..][1..] == prefix[i + 1..];
        node := node.children[prefix[i]];
        i := i + 1;
      }
      results := set s | s in Collect(node) :: prefix + s;
      Completions(prefix, node, results);
    }

    lemma NoCompletion(prefix: string)
      requires Valid() && Descend(root, prefix).None?
      ensures forall w :: !(w in words && prefix <= w)
    {
      forall w | prefix <= w ensures w !in words {
        assert w == prefix + w[|prefix|..];
        DescendSpells(root, prefix, w[|prefix|..]);
      }
    }

    lemma Completions(prefix: string, node: Node, results: set<string>)
      requires Valid() && Descend(root, prefix) == Some(node)
      requires results == set s | s in Collect(node) :: prefix + s
      ensures forall w :: w in results <==> w in words && prefix <= w
    {
      forall w ensures w in results <==> w in words && prefix <= w {
        if prefix <= w {
          var s := w[|prefix|..];
          assert w == prefix + s;
          DescendSpells(root, prefix, s);
          CollectSpells(node, s);
        }
        if w in results {
          var s :| s in Collect(node) && w == prefix + s;
          DescendSpells(root, prefix, s);
          CollectSpells(node, s);
        }
      }
    }
  }
}
