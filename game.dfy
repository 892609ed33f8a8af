/**
 * The session run by main: the fixed map, the seeded suspect table, one exploration,
 * the analysis, and the release of the table; with the concrete scenarios it implies.
 */
module Game {
  import opened Wrappers
  import opened Text
  import opened ClueTree
  import opened SuspectTable
  import opened Analysis
  import opened Mansion

  const Bilhete: string := "Bilhete rasgado com data antiga"
  const Chave: string := "Chave dourada com brasao"
  const Diario: string := "Diario com anotacoes estranhas"
  const Copo: string := "Copo quebrado"
  const Pegadas: string := "Pegadas na lama"
  const Carta: string := "Carta de amor"

  /** The clue -> suspect pairs main inserts, in order. */
  const SeedPairs: seq<Entry> := [
    Entry(Bilhete, "Mordomo"),
    Entry(Chave, "Jardineiro"),
    Entry(Diario, "Dona da Casa"),
    Entry(Copo, "Mordomo"),
    Entry(Pegadas, "Jardineiro"),
    Entry(Carta, "Dona da Casa")
  ]

  /** The state at the start of explorarSalas: the hall, nothing searched, no clue. */
  function Start(): (s: Explorer)
    ensures Fits(FixedMap(), s)
  {
    Explorer(0, seq(7, _ => false), Empty)
  }

  /**
   * Going left twice from the hall passes the library and ends in the study, a dead end,
   * with the library's and the study's clues collected; a mistyped command on the way
   * changes nothing.
   */
  lemma LeftLeftReachesStudy()
    ensures Walk(FixedMap(), Start(), "ee")
         == (Explorer(3, [false, true, false, true, false, false, false], Insert(Insert(Empty, Bilhete), Chave)), DeadEnd)
    ensures Walk(FixedMap(), Start(), "exe") == Walk(FixedMap(), Start(), "ee")
  {
    var rooms := FixedMap();
    var s0 := Start();
    assert ClueOf(rooms[0].name) == None;
    var s1 := Collect(rooms, s0).(room := 1);
    assert Walk(rooms, s0, "ee") == Walk(rooms, s1, "e");
    assert ClueOf(rooms[1].name) == Some(Bilhete);
    var s2 := Collect(rooms, s1).(room := 3);
    assert Walk(rooms, s1, "e") == Walk(rooms, s2, "");
    assert ClueOf(rooms[3].name) == Some(Chave);
    assert s0.collected[1 := true][3 := true] == [false, true, false, true, false, false, false];

    assert "exe" == ['e'] + ("xe");
    assert Walk(rooms, s0, "exe") == Walk(rooms, s1, "xe");
    assert "xe" == ['x'] + "e";
    UnknownCommandIgnored(rooms, s1, 'x', "e");
  }

  /** The suspect main's seed pairs give each clue last. */
  lemma SeedPairings()
    ensures LastPaired(SeedPairs, Bilhete) == Some("Mordomo")
    ensures LastPaired(SeedPairs, Copo) == Some("Mordomo")
    ensures LastPaired(SeedPairs, Chave) == Some("Jardineiro")
  {
    var e0, e1, e2 := Entry(Bilhete, "Mordomo"), Entry(Chave, "Jardineiro"), Entry(Diario, "Dona da Casa");
    var e3, e4, e5 := Entry(Copo, "Mordomo"), Entry(Pegadas, "Jardineiro"), Entry(Carta, "Dona da Casa");
    var q1 := [e0];
    var q2 := q1 + [e1];
    var q3 := q2 + [e2];
    var q4 := q3 + [e3];
    var q5 := q4 + [e4];
    var q6 := q5 + [e5];
    assert SeedPairs == q6;
    assert q6[..5] == q5 && q5[..4] == q4 && q4[..3] == q3 && q3[..2] == q2 && q2[..1] == q1;
    assert |Bilhete| == 31 && |Chave| == 24 && |Copo| == 13 && |Carta| == 13 && |Pegadas| == 15 && |Diario| == 30;
    assert Copo[1] != Carta[1];
    assert LastPaired(q6, Copo) == LastPaired(q5, Copo) == LastPaired(q4, Copo) == Some("Mordomo");
    assert LastPaired(q6, Chave) == LastPaired(q5, Chave) == LastPaired(q4, Chave);
    assert LastPaired(q4, Chave) == LastPaired(q3, Chave) == LastPaired(q2, Chave) == Some("Jardineiro");
    assert LastPaired(q6, Bilhete) == LastPaired(q5, Bilhete) == LastPaired(q4, Bilhete);
    assert LastPaired(q4, Bilhete) == LastPaired(q3, Bilhete) == LastPaired(q2, Bilhete);
    assert LastPaired(q2, Bilhete) == LastPaired(q1, Bilhete) == Some("Mordomo");
  }

  lemma ThreeCluesInOrder()
    ensures InOrder(Build([Bilhete, Copo, Chave])) == [Bilhete, Chave, Copo]
  {
    assert [Bilhete, Copo, Chave][..2] == [Bilhete, Copo];
    assert [Bilhete, Copo][..1] == [Bilhete];
    assert [Bilhete][..0] == [];
    assert Compare(Copo, Bilhete) == Greater;
    assert Compare(Chave, Bilhete) == Greater;
    assert Compare(Chave[1..], Copo[1..]) == Less;
    assert Compare(Chave, Copo) == Less;
    var one := Node(Empty, Bilhete, Empty);
    assert Build([Bilhete]) == one;
    var two := Node(Empty, Bilhete, Node(Empty, Copo, Empty));
    assert Build([Bilhete, Copo]) == Insert(one, Copo) == two;
    assert Build([Bilhete, Copo, Chave]) == Insert(two, Chave)
        == Node(Empty, Bilhete, Node(Node(Empty, Chave, Empty), Copo, Empty));
  }

  /** The tallies of three clues for any table that maps them as main's seed pairs do. */
  lemma VerdictFromLookups(table: seq<seq<Entry>>, a: string, b: string, c: string)
    requires |table| == TableSize
    requires Get(table, a) == Some("Mordomo") && Get(table, b) == Some("Jardineiro")
    requires Get(table, c) == Some("Mordomo")
    ensures var t := Tallies([a, b, c], table, Suspects);
      t == [2, 1, 0] && FirstMax(t) == 0
  {
    assert IndexOf(Suspects, "Mordomo") == Some(0);
    assert IndexOf(Suspects, "Jardineiro") == Some(1);
    var clues := [a, b, c];
    assert clues[1..] == [b, c] && clues[1..][1..] == [c] && [c][1..] == [];
    assert Mention(table, Suspects, a) == Some(0) && Mention(table, Suspects, c) == Some(0);
    assert Mention(table, Suspects, b) == Some(1);
    forall i | 0 <= i < 3
      ensures Occurrences(clues, table, Suspects, i)
           == (if i == 0 then 2 else if i == 1 then 1 else 0)
    {
      assert Occurrences([c], table, Suspects, i) == (if i == 0 then 1 else 0);
      assert Occurrences([b, c], table, Suspects, i) == (if i == 2 then 0 else 1);
    }
    var t := Tallies(clues, table, Suspects);
    assert t == [2, 1, 0];
  }

  /**
   * With main's seed pairs and the clues of the library, the kitchen and the study,
   * the butler is cited twice, the gardener once, the lady of the house never, and the
   * butler is the most cited.
   */
  lemma SeededVerdict()
    ensures var t := Tallies(InOrder(Build([Bilhete, Copo, Chave])), Seed(SeedPairs), Suspects);
      t == [2, 1, 0] && FirstMax(t) == 0
  {
    SeedPairings();
    SeedGet(SeedPairs, Bilhete);
    SeedGet(SeedPairs, Copo);
    SeedGet(SeedPairs, Chave);
    ThreeCluesInOrder();
    VerdictFromLookups(Seed(SeedPairs), Bilhete, Chave, Copo);
  }

  /**
   * main: build the map and the table, insert the seed pairs in order (main passes
   * SeedPairs), explore from the hall with the player's commands, analyse the clues
   * found with the three declared suspects, then release the table.
   */
  method Session(seeds: seq<Entry>, commands: seq<char>)
    returns (clues: Tree, tallies: seq<int>, mostCited: string, mentions: int)
    ensures clues == Walk(FixedMap(), Start(), commands).0.clues
    ensures IsBst(clues)
    ensures tallies == Tallies(InOrder(clues), Seed(seeds), Suspects)
    ensures mostCited == Suspects[FirstMax(tallies)] && mentions == tallies[FirstMax(tallies)]
  {
    var manor := new Manor();
    var table := new HashTable();
    for k := 0 to |seeds|
      invariant table.Valid() && fresh(table.buckets)
      invariant table.buckets[..] == Seed(seeds[..k])
      modifies table.buckets
    {
      assert seeds[..k + 1][..k] == seeds[..k];
      table.Insert(seeds[k].clue, seeds[k].suspect);
    }
    assert seeds[..|seeds|] == seeds;
    assert manor.collected[..] == Start().collected;
    var last, stop;
    clues, last, stop := manor.Explore(0, Empty, commands);
    WalkKeepsBst(FixedMap(), Start(), commands);
    tallies, mostCited, mentions := AnalyzeSuspects(table, clues, Suspects);
    table.Release();
  }
}
