/**
 * The clue -> suspect hash table (`TabelaHash`): 13 bucket chains, polynomial hash.
 *
 * The table's contents are modelled as a value, a sequence of 13 chains, each chain
 * listed head first; `Get` and `Put` say what lookup and insertion do to that value.
 * The class `HashTable` keeps the chains in an array and its methods are the C loops,
 * proved against `Get` and `Put`.
 */
module SuspectTable {
  import opened Wrappers

  /** TAMANHO_TABELA_HASH */
  const TableSize: nat := 13

  /** `unsigned int` arithmetic wraps modulo 2^32. */
  const WordModulus: nat := 0x1_0000_0000

  /** The value of the key's characters read as digits in base 31, with no wrap-around. */
  function Polynomial(key: string): nat {
    if key == [] then 0 else Polynomial(key[..|key| - 1]) * 31 + key[|key| - 1] as int
  }

  /** `valor_hash` after the loop of `hash`: acc := acc * 31 + c, in 32-bit unsigned arithmetic. */
  function Accumulator(key: string): (acc: nat)
    ensures acc < WordModulus
  {
    if key == [] then 0
    else (Accumulator(key[..|key| - 1]) * 31 + key[|key| - 1] as int) % WordModulus
  }

  /** The bucket of a key: `hash(key)`. */
  function HashOf(key: string): (h: nat)
    ensures h < TableSize
  {
    Accumulator(key) % TableSize
  }

  lemma ModuloAbsorbs(x: int, y: int)
    ensures ((x % WordModulus) * 31 + y) % WordModulus == (x * 31 + y) % WordModulus
  {
    var q := x / WordModulus;
    assert x == q * WordModulus + x % WordModulus;
    assert x * 31 + y == (x % WordModulus) * 31 + y + (q * 31) * WordModulus;
  }

  /** The wrapped accumulator is the unbounded polynomial reduced modulo 2^32. */
  lemma {:induction false} AccumulatorIsPolynomial(key: string)
    ensures Accumulator(key) == Polynomial(key) % WordModulus
  {
    if key != [] {
      var p := key[..|key| - 1];
      AccumulatorIsPolynomial(p);
      ModuloAbsorbs(Polynomial(p), key[|key| - 1] as int);
    }
  }

  /** One chain link: `EntradaHash` without its `proximo` pointer. */
  datatype Entry = Entry(clue: string, suspect: string)

  /** The suspect of the first entry of the chain whose clue is `clue`. */
  function Find(chain: seq<Entry>, clue: string): (r: Option<string>)
    ensures r.None? <==> forall j :: 0 <= j < |chain| ==> chain[j].clue != clue
    ensures r.Some? ==> Entry(clue, r.value) in chain
  {
    if chain == [] then None
    else if chain[0].clue == clue then Some(chain[0].suspect)
    else Find(chain[1..], clue)
  }

  /** The index of the first entry of the chain whose clue is `clue`. */
  function Position(chain: seq<Entry>, clue: string): (r: Option<nat>)
    ensures r.Some? ==> r.value < |chain| && chain[r.value].clue == clue
    ensures r.Some? ==> forall j :: 0 <= j < r.value ==> chain[j].clue != clue
    ensures r.None? ==> forall j :: 0 <= j < |chain| ==> chain[j].clue != clue
  {
    if chain == [] then None
    else if chain[0].clue == clue then Some(0)
    else match Position(chain[1..], clue)
      case None => None
      case Some(j) => Some(j + 1)
  }

  predicate ChainUnique(chain: seq<Entry>) {
    forall i, j :: 0 <= i < j < |chain| ==> chain[i].clue != chain[j].clue
  }

  /** The table invariant: 13 buckets, every entry in the bucket of its clue, clues unique per chain. */
  predicate WellFormed(buckets: seq<seq<Entry>>) {
    && |buckets| == TableSize
    && (forall i, j :: 0 <= i < |buckets| && 0 <= j < |buckets[i]| ==> HashOf(buckets[i][j].clue) == i)
    && (forall i :: 0 <= i < |buckets| ==> ChainUnique(buckets[i]))
  }

  /** inicializarTabelaHash: every bucket NULL. */
  function EmptyTable(): (buckets: seq<seq<Entry>>)
    ensures WellFormed(buckets)
  {
    seq(TableSize, _ => [])
  }

  /** buscarNaHash: scan the chain of the clue's bucket. */
  function Get(buckets: seq<seq<Entry>>, clue: string): (r: Option<string>)
    requires |buckets| == TableSize
    ensures r.Some? ==> Entry(clue, r.value) in buckets[HashOf(clue)]
    ensures WellFormed(buckets) ==>
      (r.None? <==> forall i, j :: 0 <= i < |buckets| && 0 <= j < |buckets[i]| ==> buckets[i][j].clue != clue)
  {
    Find(buckets[HashOf(clue)], clue)
  }

  /**
   * inserirNaHash: an entry with the same clue has its suspect overwritten in place;
   * otherwise a new entry goes to the head of the bucket's chain.
   */
  function Put(buckets: seq<seq<Entry>>, clue: string, suspect: string): (r: seq<seq<Entry>>)
    requires |buckets| == TableSize
    ensures |r| == TableSize
    ensures forall i :: 0 <= i < TableSize && i != HashOf(clue) ==> r[i] == buckets[i]
  {
    var h := HashOf(clue);
    var chain := buckets[h];
    match Position(chain, clue)
    case Some(j) => buckets[h := chain[j := Entry(clue, suspect)]]
    case None => buckets[h := [Entry(clue, suspect)] + chain]
  }

  /** The number of entries over all buckets. */
  function Total(buckets: seq<seq<Entry>>): nat {
    if buckets == [] then 0 else Total(buckets[..|buckets| - 1]) + |buckets[|buckets| - 1]|
  }

  lemma {:induction false} TotalUpdate(buckets: seq<seq<Entry>>, i: nat, chain: seq<Entry>)
    requires i < |buckets|
    ensures Total(buckets[i := chain]) == Total(buckets) - |buckets[i]| + |chain|
  {
    var n := |buckets| - 1;
    if i < n {
      assert buckets[i := chain][..n] == buckets[..n][i := chain];
      TotalUpdate(buckets[..n], i, chain);
    } else {
      assert buckets[i := chain][..n] == buckets[..n];
    }
  }

  lemma {:induction false} TotalEmpty(n: nat)
    ensures Total(seq(n, _ => [])) == 0
  {
    if n > 0 {
      var all: seq<seq<Entry>> := seq(n, _ => []);
      var init: seq<seq<Entry>> := seq(n - 1, _ => []);
      assert all[..n - 1] == init;
      TotalEmpty(n - 1);
    }
  }

  /** A lookup in the empty table finds nothing. */
  lemma GetEmpty(clue: string)
    ensures Get(EmptyTable(), clue) == None
    ensures Total(EmptyTable()) == 0
  {
    TotalEmpty(TableSize);
  }

  /** After inserting (clue, suspect), looking the clue up gives that suspect. */
  lemma GetPutSame(buckets: seq<seq<Entry>>, clue: string, suspect: string)
    requires |buckets| == TableSize
    ensures Get(Put(buckets, clue, suspect), clue) == Some(suspect)
  {
    var h := HashOf(clue);
    var chain := buckets[h];
    match Position(chain, clue)
    case Some(j) =>
      FindFirst(chain[j := Entry(clue, suspect)], j, clue);
    case None =>
  }

  lemma {:induction false} FindFirst(chain: seq<Entry>, j: nat, clue: string)
    requires j < |chain| && chain[j].clue == clue
    requires forall q :: 0 <= q < j ==> chain[q].clue != clue
    ensures Find(chain, clue) == Some(chain[j].suspect)
  {
    if j > 0 {
      FindFirst(chain[1..], j - 1, clue);
    }
  }

  lemma {:induction false} FindOther(chain: seq<Entry>, j: nat, e: Entry, clue: string)
    requires j < |chain| && chain[j].clue != clue && e.clue != clue
    ensures Find(chain[j := e], clue) == Find(chain, clue)
  {
    if j > 0 {
      assert chain[j := e][1..] == chain[1..][j - 1 := e];
      FindOther(chain[1..], j - 1, e, clue);
    }
  }

  /** Inserting one clue leaves the lookup of every other clue unchanged. */
  lemma GetPutOther(buckets: seq<seq<Entry>>, clue: string, suspect: string, other: string)
    requires |buckets| == TableSize && other != clue
    ensures Get(Put(buckets, clue, suspect), other) == Get(buckets, other)
  {
    var h := HashOf(clue);
    var chain := buckets[h];
    if HashOf(other) == h {
      match Position(chain, clue)
      case Some(j) =>
        FindOther(chain, j, Entry(clue, suspect), other);
      case None =>
        assert ([Entry(clue, suspect)] + chain)[1..] == chain;
    }
  }

  /** Insertion keeps every entry in its clue's bucket and the chains free of duplicate clues. */
  lemma PutWellFormed(buckets: seq<seq<Entry>>, clue: string, suspect: string)
    requires WellFormed(buckets)
    ensures WellFormed(Put(buckets, clue, suspect))
  {
    var h := HashOf(clue);
    var chain := buckets[h];
    var r := Put(buckets, clue, suspect);
    match Position(chain, clue)
    case Some(j) =>
      assert r[h] == chain[j := Entry(clue, suspect)];
    case None =>
      assert r[h] == [Entry(clue, suspect)] + chain;
  }

  /** A known clue keeps the entry count, a new clue raises it by exactly one. */
  lemma PutTotal(buckets: seq<seq<Entry>>, clue: string, suspect: string)
    requires |buckets| == TableSize
    ensures Total(Put(buckets, clue, suspect)) == Total(buckets) + (if Get(buckets, clue).Some? then 0 else 1)
  {
    var h := HashOf(clue);
    var chain := buckets[h];
    match Position(chain, clue)
    case Some(j) =>
      TotalUpdate(buckets, h, chain[j := Entry(clue, suspect)]);
    case None =>
      TotalUpdate(buckets, h, [Entry(clue, suspect)] + chain);
  }

  /** The table after inserting the pairs one after the other into an empty table. */
  function Seed(pairs: seq<Entry>): (buckets: seq<seq<Entry>>)
    ensures WellFormed(buckets)
  {
    if pairs == [] then EmptyTable()
    else
      var last := pairs[|pairs| - 1];
      PutWellFormed(Seed(pairs[..|pairs| - 1]), last.clue, last.suspect);
      Put(Seed(pairs[..|pairs| - 1]), last.clue, last.suspect)
  }

  /** The suspect most recently paired with the clue, if any. */
  function LastPaired(pairs: seq<Entry>, clue: string): Option<string> {
    if pairs == [] then None
    else if pairs[|pairs| - 1].clue == clue then Some(pairs[|pairs| - 1].suspect)
    else LastPaired(pairs[..|pairs| - 1], clue)
  }

  /** A clue has no last pairing exactly when no pair names it. */
  lemma LastPairedNone(pairs: seq<Entry>, clue: string)
    ensures LastPaired(pairs, clue).None? <==> forall e :: e in pairs ==> e.clue != clue
  {
  }

  /**
   * Lookup after any sequence of insertions gives the last suspect inserted for the
   * clue, and not-found for a clue never inserted.
   */
  lemma {:induction false} SeedGet(pairs: seq<Entry>, clue: string)
    ensures Get(Seed(pairs), clue) == LastPaired(pairs, clue)
  {
    if pairs == [] {
      GetEmpty(clue);
    } else {
      var init, last := pairs[..|pairs| - 1], pairs[|pairs| - 1];
      if last.clue == clue {
        GetPutSame(Seed(init), clue, last.suspect);
      } else {
        GetPutOther(Seed(init), last.clue, last.suspect, clue);
        SeedGet(init, clue);
      }
    }
  }

  class HashTable {
    const buckets: array<seq<Entry>>

    ghost predicate Valid()
      reads buckets
    {
      WellFormed(buckets[..])
    }

    /** inicializarTabelaHash */
    constructor ()
      ensures Valid() && fresh(buckets)
      ensures buckets[..] == EmptyTable()
    {
      var b := new seq<Entry>[TableSize];
      for i := 0 to TableSize
        invariant forall q :: 0 <= q < i ==> b[q] == []
      {
        b[i] := [];
      }
      buckets := b;
    }

    /** hash: the C loop over the key's characters. */
    static method Hash(key: string) returns (h: nat)
      ensures h == HashOf(key)
    {
      var acc := 0;
      for i := 0 to |key|
        invariant acc == Accumulator(key[..i])
      {
        assert key[..i + 1][..i] == key[..i];
        acc := (acc * 31 + key[i] as int) % WordModulus;
      }
      assert key[..|key|] == key;
      h := acc % TableSize;
    }

    /** inserirNaHash */
    method Insert(clue: string, suspect: string)
      requires Valid()
      modifies buckets
      ensures Valid()
      ensures buckets[..] == Put(old(buckets[..]), clue, suspect)
    {
      PutWellFormed(buckets[..], clue, suspect);
      var index := Hash(clue);
      var chain := buckets[index];
      var j := 0;
      while j < |chain|
        invariant j <= |chain|
        invariant forall q :: 0 <= q < j ==> chain[q].clue != clue
      {
        if chain[j].clue == clue {
          buckets[index] := chain[j := Entry(chain[j].clue, suspect)];
          return;
        }
        j := j + 1;
      }
      buckets[index] := [Entry(clue, suspect)] + chain;
    }

    /** buscarNaHash: the suspect, or None where the C returns NULL. */
    method Lookup(clue: string) returns (r: Option<string>)
      requires Valid()
      ensures r == Get(buckets[..], clue)
    {
      var index := Hash(clue);
      var chain := buckets[index];
      var j := 0;
      while j < |chain|
        invariant j <= |chain|
        invariant Find(chain, clue) == Find(chain[j..], clue)
      {
        if chain[j].clue == clue {
          return Some(chain[j].suspect);
        }
        j := j + 1;
      }
      r := None;
    }

    /** liberarMemoriaHash: every chain released and its bucket reset to NULL. */
    method Release()
      requires Valid()
      modifies buckets
      ensures Valid()
      ensures buckets[..] == EmptyTable()
    {
      for i := 0 to TableSize
        invariant forall q :: 0 <= q < i ==> buckets[q] == []
      {
        buckets[i] := [];
      }
    }
  }
}
