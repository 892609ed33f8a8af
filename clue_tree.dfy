/**
 * The binary search tree of collected clues (`NoPista`, `inserirPista`,
 * `mostrarPistasEmOrdem`). The C tree re-links child pointers on the way back
 * from the recursive descent; here that descent is a function over a datatype.
 */
module ClueTree {
  import opened Text

  datatype Tree = Empty | Node(left: Tree, clue: string, right: Tree)

  function Keys(t: Tree): set<string> {
    match t
    case Empty => {}
    case Node(l, c, r) => Keys(l) + {c} + Keys(r)
  }

  function Size(t: Tree): nat {
    match t
    case Empty => 0
    case Node(l, _, r) => Size(l) + 1 + Size(r)
  }

  /** Left subtree strictly below the node's clue, right subtree strictly above, under strcmp. */
  predicate IsBst(t: Tree) {
    match t
    case Empty => true
    case Node(l, c, r) =>
      && IsBst(l) && IsBst(r)
      && (forall k :: k in Keys(l) ==> Precedes(k, c))
      && (forall k :: k in Keys(r) ==> Precedes(c, k))
  }

  /**
   * inserirPista: descend left while smaller, right while greater, add a leaf at
   * the empty link; a clue equal to the one at the comparison point is dropped.
   */
  function Insert(t: Tree, clue: string): (r: Tree)
    ensures Keys(r) == Keys(t) + {clue}
    ensures IsBst(t) ==> IsBst(r)
  {
    match t
    case Empty => Node(Empty, clue, Empty)
    case Node(l, c, rt) =>
      match Compare(clue, c)
      case Less => Node(Insert(l, clue), c, rt)
      case Greater =>
        CompareFlip(clue, c);
        Node(l, c, Insert(rt, clue))
      case Equal => t
  }

  /** mostrarPistasEmOrdem: left subtree, the node, right subtree. */
  function InOrder(t: Tree): seq<string> {
    match t
    case Empty => []
    case Node(l, c, r) => InOrder(l) + [c] + InOrder(r)
  }

  predicate Ascending(s: seq<string>) {
    forall i, j :: 0 <= i < j < |s| ==> Precedes(s[i], s[j])
  }

  /** A clue already in a search tree is not inserted again: the tree is unchanged. */
  lemma {:induction false} InsertPresent(t: Tree, clue: string)
    requires IsBst(t) && clue in Keys(t)
    ensures Insert(t, clue) == t
  {
    match t
    case Node(l, c, r) =>
      match Compare(clue, c)
      case Less =>
        if clue in Keys(r) {
          PrecedesAsymmetric(clue, c);
        }
        InsertPresent(l, clue);
      case Greater =>
        CompareFlip(clue, c);
        if clue in Keys(l) {
          PrecedesAsymmetric(clue, c);
        }
        InsertPresent(r, clue);
      case Equal =>
  }

  /** Inserting adds exactly one node for a new clue and none for a known one. */
  lemma {:induction false} InsertSize(t: Tree, clue: string)
    requires IsBst(t)
    ensures Size(Insert(t, clue)) == Size(t) + (if clue in Keys(t) then 0 else 1)
  {
    if clue in Keys(t) {
      InsertPresent(t, clue);
    } else {
      match t
      case Empty =>
      case Node(l, c, r) =>
        match Compare(clue, c)
        case Less => InsertSize(l, clue);
        case Greater => InsertSize(r, clue);
        case Equal =>
    }
  }

  /** The in-order listing holds exactly the keys, one entry per node. */
  lemma {:induction false} InOrderContents(t: Tree)
    ensures |InOrder(t)| == Size(t)
    ensures forall k :: k in InOrder(t) <==> k in Keys(t)
  {
    match t
    case Empty =>
    case Node(l, c, r) =>
      InOrderContents(l);
      InOrderContents(r);
  }

  /** In a search tree the in-order listing is strictly ascending, hence free of duplicates. */
  lemma {:induction false} InOrderAscending(t: Tree)
    requires IsBst(t)
    ensures Ascending(InOrder(t))
  {
    match t
    case Empty =>
    case Node(l, c, r) =>
      InOrderAscending(l);
      InOrderAscending(r);
      InOrderContents(l);
      InOrderContents(r);
      var a, b := InOrder(l), InOrder(r);
      var s := a + [c] + b;
      forall i, j | 0 <= i < j < |s|
        ensures Precedes(s[i], s[j])
      {
        if j < |a| {
        } else if i < |a| && j == |a| {
          assert s[i] in a;
        } else if i < |a| {
          assert s[i] in a && s[j] in b;
          PrecedesTransitive(s[i], c, s[j]);
        } else if i == |a| {
          assert s[j] == b[j - |a| - 1];
          assert s[j] in b;
        } else {
          assert s[i] == b[i - |a| - 1] && s[j] == b[j - |a| - 1];
        }
      }
  }

  /** Conversely, a tree whose in-order listing ascends is a search tree. */
  lemma {:induction false} AscendingInOrderIsBst(t: Tree)
    requires Ascending(InOrder(t))
    ensures IsBst(t)
  {
    match t
    case Empty =>
    case Node(l, c, r) =>
      InOrderContents(l);
      InOrderContents(r);
      var a, b := InOrder(l), InOrder(r);
      var s := a + [c] + b;
      assert a == s[..|a|] && b == s[|a| + 1..];
      AscendingInOrderIsBst(l);
      AscendingInOrderIsBst(r);
      forall k | k in Keys(l) ensures Precedes(k, c) {
        var i :| 0 <= i < |a| && a[i] == k;
        assert s[i] == k && s[|a|] == c;
      }
      forall k | k in Keys(r) ensures Precedes(c, k) {
        var j :| 0 <= j < |b| && b[j] == k;
        assert s[|a| + 1 + j] == k && s[|a|] == c;
      }
  }

  /** A tree built by any sequence of insertions is a search tree. */
  function Build(clues: seq<string>): (t: Tree)
    ensures IsBst(t)
    ensures Keys(t) == set k | k in clues
  {
    if clues == [] then Empty else Insert(Build(clues[..|clues| - 1]), clues[|clues| - 1])
  }

  /**
   * Whatever the order of insertion, the in-order listing is strictly ascending and
   * lists exactly the inserted clues.
   */
  lemma BuildListsSorted(clues: seq<string>)
    ensures Ascending(InOrder(Build(clues)))
    ensures forall k :: k in InOrder(Build(clues)) <==> k in clues
  {
    InOrderAscending(Build(clues));
    InOrderContents(Build(clues));
  }

  /** Inserting the same clue a second time changes nothing. */
  lemma InsertTwice(t: Tree, clue: string)
    requires IsBst(t)
    ensures Insert(Insert(t, clue), clue) == Insert(t, clue)
    ensures Size(Insert(Insert(t, clue), clue)) == Size(Insert(t, clue))
  {
    InsertPresent(Insert(t, clue), clue);
  }
}
