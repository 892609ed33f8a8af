/**
 * Suspect analysis (`contarSuspeitos`, `analisarSuspeitos`): walk the clue tree in
 * order, look each clue up in the hash table, count a mention for the first declared
 * suspect whose name equals the one found, then pick the most cited suspect with a
 * strictly-greater running maximum.
 */
module Analysis {
  import opened Wrappers
  import opened ClueTree
  import opened SuspectTable

  /** nomesSuspeitos, in declared order. */
  const Suspects: seq<string> := ["Mordomo", "Jardineiro", "Dona da Casa"]

  /** The initial value of suspeitoMaisCitado. */
  const NoSuspect: string := "Nenhum"

  /** The first declared index holding the name (the counting loop stops at the first match). */
  function IndexOf(names: seq<string>, name: string): (r: Option<nat>)
    ensures r.Some? ==> r.value < |names| && names[r.value] == name
    ensures r.Some? ==> forall q :: 0 <= q < r.value ==> names[q] != name
    ensures r.None? <==> name !in names
  {
    if names == [] then None
    else if names[0] == name then Some(0)
    else match IndexOf(names[1..], name)
      case None => None
      case Some(j) => Some(j + 1)
  }

  /** The counter a clue adds to: none if the clue is unmapped or its suspect is not declared. */
  function Mention(buckets: seq<seq<Entry>>, names: seq<string>, clue: string): (r: Option<nat>)
    requires |buckets| == TableSize
    ensures r.Some? ==> r.value < |names| && Get(buckets, clue) == Some(names[r.value])
    ensures r.None? <==> Get(buckets, clue).None? || Get(buckets, clue).value !in names
  {
    match Get(buckets, clue)
    case None => None
    case Some(suspect) => IndexOf(names, suspect)
  }

  /** How many of the clues add to counter i. */
  function Occurrences(clues: seq<string>, buckets: seq<seq<Entry>>, names: seq<string>, i: nat): (r: nat)
    requires |buckets| == TableSize
    ensures r <= |clues|
    ensures i >= |names| ==> r == 0
  {
    if clues == [] then 0
    else
      var here := if Mention(buckets, names, clues[0]) == Some(i) then 1 else 0;
      here + Occurrences(clues[1..], buckets, names, i)
  }

  /** How many of the clues map to this suspect in the table. */
  function Citations(clues: seq<string>, buckets: seq<seq<Entry>>, suspect: string): nat
    requires |buckets| == TableSize
  {
    if clues == [] then 0
    else
      var here := if Get(buckets, clues[0]) == Some(suspect) then 1 else 0;
      here + Citations(clues[1..], buckets, suspect)
  }

  /** The final counter of every declared suspect. */
  function Tallies(clues: seq<string>, buckets: seq<seq<Entry>>, names: seq<string>): (r: seq<nat>)
    requires |buckets| == TableSize
    ensures |r| == |names|
  {
    seq(|names|, i requires 0 <= i < |names| => Occurrences(clues, buckets, names, i))
  }

  function Sum(s: seq<int>): int {
    if s == [] then 0 else Sum(s[..|s| - 1]) + s[|s| - 1]
  }

  /** The index the strictly-greater running maximum settles on. */
  function FirstMax(s: seq<int>): (k: nat)
    requires |s| > 0
    ensures k < |s|
    ensures forall j :: 0 <= j < |s| ==> s[j] <= s[k]
    ensures forall j :: 0 <= j < k ==> s[j] < s[k]
  {
    if |s| == 1 then 0
    else
      var k := FirstMax(s[..|s| - 1]);
      if s[|s| - 1] > s[k] then |s| - 1 else k
  }

  lemma {:induction false} OccurrencesConcat(a: seq<string>, b: seq<string>, buckets: seq<seq<Entry>>, names: seq<string>, i: nat)
    requires |buckets| == TableSize
    ensures Occurrences(a + b, buckets, names, i)
         == Occurrences(a, buckets, names, i) + Occurrences(b, buckets, names, i)
  {
    if a == [] {
      assert a + b == b;
    } else {
      assert (a + b)[0] == a[0] && (a + b)[1..] == a[1..] + b;
      OccurrencesConcat(a[1..], b, buckets, names, i);
    }
  }

  /**
   * For the first declaration of a name, the counter is the number of clues the table
   * maps to that name; a repeated declaration is never counted.
   */
  lemma {:induction false} OccurrencesAreCitations(clues: seq<string>, buckets: seq<seq<Entry>>, names: seq<string>, i: nat)
    requires |buckets| == TableSize && i < |names|
    ensures IndexOf(names, names[i]) == Some(i) ==> Occurrences(clues, buckets, names, i) == Citations(clues, buckets, names[i])
    ensures IndexOf(names, names[i]) != Some(i) ==> Occurrences(clues, buckets, names, i) == 0
  {
    if clues != [] {
      OccurrencesAreCitations(clues[1..], buckets, names, i);
    }
  }

  /** Counting over the first n suspects. */
  function CountedUpTo(clues: seq<string>, buckets: seq<seq<Entry>>, names: seq<string>, n: nat): nat
    requires |buckets| == TableSize
  {
    if n == 0 then 0 else CountedUpTo(clues, buckets, names, n - 1) + Occurrences(clues, buckets, names, n - 1)
  }

  lemma {:induction false} CountedUpToStep(clues: seq<string>, buckets: seq<seq<Entry>>, names: seq<string>, n: nat)
    requires |buckets| == TableSize && clues != []
    ensures CountedUpTo(clues, buckets, names, n)
         == CountedUpTo(clues[1..], buckets, names, n)
            + (match Mention(buckets, names, clues[0]) case Some(j) => (if j < n then 1 else 0) case None => 0)
  {
    if n > 0 {
      CountedUpToStep(clues, buckets, names, n - 1);
    }
  }

  lemma {:induction false} CountedUpToBound(clues: seq<string>, buckets: seq<seq<Entry>>, names: seq<string>, n: nat)
    requires |buckets| == TableSize
    ensures CountedUpTo(clues, buckets, names, n) <= |clues|
  {
    if clues == [] {
      CountedUpToEmpty(buckets, names, n);
    } else {
      CountedUpToStep(clues, buckets, names, n);
      CountedUpToBound(clues[1..], buckets, names, n);
    }
  }

  lemma {:induction false} CountedUpToEmpty(buckets: seq<seq<Entry>>, names: seq<string>, n: nat)
    requires |buckets| == TableSize
    ensures CountedUpTo([], buckets, names, n) == 0
  {
    if n > 0 {
      CountedUpToEmpty(buckets, names, n - 1);
    }
  }

  lemma {:induction false} SumTallies(clues: seq<string>, buckets: seq<seq<Entry>>, names: seq<string>)
    requires |buckets| == TableSize
    ensures Sum(Tallies(clues, buckets, names)) == CountedUpTo(clues, buckets, names, |names|)
  {
    if names != [] {
      var n := |names| - 1;
      var t := Tallies(clues, buckets, names);
      var init := names[..n];
      assert t[..n] == Tallies(clues, buckets, init) by {
        forall q | 0 <= q < n ensures t[q] == Occurrences(clues, buckets, init, q) {
          OccurrencesPrefix(clues, buckets, names, n, q);
        }
      }
      SumTallies(clues, buckets, init);
      CountedUpToPrefix(clues, buckets, names, n, n);
    }
  }

  /** Counters below n depend only on the first n names (the scan stops at the first match). */
  lemma {:induction false} OccurrencesPrefix(clues: seq<string>, buckets: seq<seq<Entry>>, names: seq<string>, n: nat, q: nat)
    requires |buckets| == TableSize && q < n <= |names|
    ensures Occurrences(clues, buckets, names[..n], q) == Occurrences(clues, buckets, names, q)
  {
    if clues != [] {
      var m := Get(buckets, clues[0]);
      if m.Some? {
        var full, part := IndexOf(names, m.value), IndexOf(names[..n], m.value);
        assert full == Some(q) <==> part == Some(q) by {
          if full == Some(q) {
            assert names[..n][q] == m.value;
          }
          if part == Some(q) {
            assert names[q] == m.value;
          }
        }
      }
      OccurrencesPrefix(clues[1..], buckets, names, n, q);
    }
  }

  lemma {:induction false} CountedUpToPrefix(clues: seq<string>, buckets: seq<seq<Entry>>, names: seq<string>, n: nat, k: nat)
    requires |buckets| == TableSize && k <= n < |names|
    ensures CountedUpTo(clues, buckets, names[..n], k) == CountedUpTo(clues, buckets, names, k)
  {
    if k > 0 {
      CountedUpToPrefix(clues, buckets, names, n, k - 1);
      OccurrencesPrefix(clues, buckets, names, n, k - 1);
    }
  }

  /** Each clue adds at most one mention: the counters sum to at most the number of clues. */
  lemma TalliesBounded(clues: seq<string>, buckets: seq<seq<Entry>>, names: seq<string>)
    requires |buckets| == TableSize
    ensures Sum(Tallies(clues, buckets, names)) <= |clues|
  {
    SumTallies(clues, buckets, names);
    CountedUpToBound(clues, buckets, names, |names|);
  }

  /** With no clue collected every counter is 0 and the first declared suspect wins with 0. */
  lemma NoCluesVerdict(buckets: seq<seq<Entry>>, names: seq<string>)
    requires |buckets| == TableSize && |names| > 0
    ensures forall i :: 0 <= i < |names| ==> Tallies([], buckets, names)[i] == 0
    ensures FirstMax(Tallies([], buckets, names)) == 0
  {
    var t := Tallies([], buckets, names);
    var k := FirstMax(t);
    var first, best := t[0], t[k];
    assert first == 0 && best == 0;
    assert k > 0 ==> first < best;
  }

  /** contarSuspeitos: in-order walk of the clue tree adding to the counters in place. */
  method CountSuspects(node: Tree, table: HashTable, counts: array<int>, names: seq<string>)
    requires table.Valid() && counts.Length == |names|
    modifies counts
    ensures forall i :: 0 <= i < |names| ==>
      counts[i] == old(counts[i]) + Occurrences(InOrder(node), table.buckets[..], names, i)
    decreases node
  {
    if node == Empty {
      return;
    }
    ghost var before := counts[..];
    CountSuspects(node.left, table, counts, names);
    ghost var afterLeft := counts[..];

    var found := table.Lookup(node.clue);
    if found.Some? {
      var i := 0;
      while i < |names|
        invariant i <= |names|
        invariant forall q :: 0 <= q < i ==> names[q] != found.value
        invariant counts[..] == afterLeft
      {
        if found.value == names[i] {
          counts[i] := counts[i] + 1;
          break;
        }
        i := i + 1;
      }
    }
    ghost var afterNode := counts[..];
    assert forall i :: 0 <= i < |names| ==>
      afterNode[i] == afterLeft[i] + (if Mention(table.buckets[..], names, node.clue) == Some(i) then 1 else 0);

    CountSuspects(node.right, table, counts, names);

    ghost var buckets := table.buckets[..];
    forall i | 0 <= i < |names|
      ensures counts[i] == before[i] + Occurrences(InOrder(node), buckets, names, i)
    {
      OccurrencesConcat(InOrder(node.left) + [node.clue], InOrder(node.right), buckets, names, i);
      OccurrencesConcat(InOrder(node.left), [node.clue], buckets, names, i);
    }
  }

  /**
   * analisarSuspeitos: zeroed counters, the in-order count, then the strictly-greater
   * running maximum from -1 and "Nenhum"; returns the counters and the verdict.
   */
  method AnalyzeSuspects(table: HashTable, clues: Tree, names: seq<string>)
    returns (tallies: seq<int>, mostCited: string, mentions: int)
    requires table.Valid()
    ensures tallies == Tallies(InOrder(clues), table.buckets[..], names)
    ensures |names| == 0 ==> mostCited == NoSuspect && mentions == -1
    ensures |names| > 0 ==> mostCited == names[FirstMax(tallies)] && mentions == tallies[FirstMax(tallies)]
  {
    var counts := new int[|names|];
    for i := 0 to |names|
      invariant forall q :: 0 <= q < i ==> counts[q] == 0
    {
      counts[i] := 0;
    }
    CountSuspects(clues, table, counts, names);
    tallies := counts[..];
    assert tallies == Tallies(InOrder(clues), table.buckets[..], names);

    mentions := -1;
    mostCited := NoSuspect;
    for i := 0 to |names|
      invariant i == 0 ==> mostCited == NoSuspect && mentions == -1
      invariant i > 0 ==> mentions == tallies[FirstMax(tallies[..i])] && mostCited == names[FirstMax(tallies[..i])]
    {
      assert tallies[..i + 1][..i] == tallies[..i];
      if tallies[i] > mentions {
        mentions := tallies[i];
        mostCited := names[i];
      }
    }
    assert tallies[..|names|] == tallies;
  }
}
