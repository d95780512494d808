/** The identifier keyword table: a chained hash whose look-ups agree with a linear search (src/idkeyw.c). */
module KwHash {
  import opened Bytes

  const HASH_TABLE_SIZE: nat := 37 // ULF_HASH_TABLE_SIZE

  /** A word as the table's functions see it: as it is, or in upper case. */
  function Key(ci: bool, word: seq<Byte>): (k: seq<Byte>)
    ensures |k| == |word| && forall i {:trigger k[i]} {:trigger word[i]} :: 0 <= i < |word| ==> k[i] == Ch(ci, word[i])
  {
    seq(|word|, i requires 0 <= i < |word| => Ch(ci, word[i]))
  }

  function Ch(ci: bool, ch: Byte): Byte {
    if ci then ToUpper(ch) else ch
  }

  /** `keyword` is the word, character by character; where case is ignored, with its small letters as capitals. */
  ghost predicate Folded(ci: bool, word: seq<Byte>, keyword: seq<Byte>) {
    && |keyword| == |word|
    && forall i {:trigger keyword[i]} :: 0 <= i < |word| ==>
         keyword[i] == if ci && 97 <= word[i] <= 122 then word[i] - 32 else word[i]
  }

  lemma FoldedIsKey(ci: bool, word: seq<Byte>, keyword: seq<Byte>)
    ensures Folded(ci, word, keyword) <==> keyword == Key(ci, word)
  {
    assert keyword == Key(ci, word) <==>
           |keyword| == |word| && forall i :: 0 <= i < |word| ==> keyword[i] == Key(ci, word)[i];
  }

  /** Two texts that differ in the case of letters at most. */
  ghost predicate SameButCase(a: seq<Byte>, b: seq<Byte>) {
    && |a| == |b|
    && forall i {:trigger a[i]} :: 0 <= i < |a| ==>
         a[i] == b[i] || (97 <= a[i] <= 122 && b[i] == a[i] - 32) || (97 <= b[i] <= 122 && a[i] == b[i] - 32)
  }

  /** A keyword without small letters is a word's key exactly if the two differ in case at most. */
  lemma SameButCaseIsFolded(word: seq<Byte>, keyword: seq<Byte>)
    requires forall i :: 0 <= i < |keyword| ==> !(97 <= keyword[i] <= 122)
    ensures SameButCase(word, keyword) <==> Folded(true, word, keyword)
  {
    if SameButCase(word, keyword) {
      forall i | 0 <= i < |word| ensures keyword[i] == if 97 <= word[i] <= 122 then word[i] - 32 else word[i] {
        assert word[i] == word[i];
      }
    }
    if Folded(true, word, keyword) {
      forall i | 0 <= i < |word|
        ensures word[i] == keyword[i] || (97 <= word[i] <= 122 && keyword[i] == word[i] - 32)
      {
        assert keyword[i] == keyword[i];
      }
    }
  }

  // ---------- the hash ----------

  /** Every character times the weight of its position modulo three. */
  ghost function Weighted(ci: bool, weights: seq<int>, name: seq<Byte>, n: nat): int
    requires |weights| == 3 && n <= |name|
  {
    if n == 0 then 0 else Weighted(ci, weights, name, n - 1) + Ch(ci, name[n - 1]) * weights[(n - 1) % 3]
  }

  // C's remainder, which has the sign of the dividend
  function TruncMod(a: int, b: nat): int
    requires b > 0
  {
    if a >= 0 then a % b else -(-a % b)
  }

  ghost function Hash(ci: bool, weights: seq<int>, name: seq<Byte>): (h: nat)
    requires |weights| == 3
    ensures h < HASH_TABLE_SIZE
  {
    Weighted(ci, weights, name, |name|) % HASH_TABLE_SIZE
  }

  /** Adding the table size once makes C's remainder an index, also for a negative sum. */
  lemma IndexOfSum(sum: int)
    ensures TruncMod(TruncMod(sum, HASH_TABLE_SIZE) + HASH_TABLE_SIZE, HASH_TABLE_SIZE) == sum % HASH_TABLE_SIZE
  {
    if sum < 0 {
      var r := -sum % HASH_TABLE_SIZE;
      assert -sum == HASH_TABLE_SIZE * (-sum / HASH_TABLE_SIZE) + r;
    }
  }

  // __keyw_hashfunc_case_sensitive, __keyw_hashfunc_case_insensitive
  method HashFunc(ci: bool, weights: seq<int>, name: seq<Byte>) returns (hash: nat)
    requires |weights| == 3
    ensures hash == Hash(ci, weights, name)
  {
    var sum := 0;
    var i: nat := 0;
    while i < |name|
      invariant i <= |name| && (i < |name| ==> i % 3 == 0) && sum == Weighted(ci, weights, name, i)
    {
      if i + 2 >= |name| {
        var j := 0;
        while i < |name|
          invariant i <= |name| && (i < |name| ==> j < 3 && i % 3 == j) && sum == Weighted(ci, weights, name, i)
          invariant j <= 2 || i == |name|
        {
          sum := sum + Ch(ci, name[i]) * weights[j];
          i, j := i + 1, j + 1;
        }
        break;
      }
      ThreeMore(ci, weights, name, i);
      sum := sum + Ch(ci, name[i]) * weights[0] + Ch(ci, name[i + 1]) * weights[1] + Ch(ci, name[i + 2]) * weights[2];
      i := i + 3;
    }
    IndexOfSum(sum);
    sum := TruncMod(sum, HASH_TABLE_SIZE) + HASH_TABLE_SIZE;
    hash := TruncMod(sum, HASH_TABLE_SIZE);
  }

  lemma ThreeMore(ci: bool, weights: seq<int>, name: seq<Byte>, i: nat)
    requires |weights| == 3 && i % 3 == 0 && i + 3 <= |name|
    ensures Weighted(ci, weights, name, i + 3) == Weighted(ci, weights, name, i) + Ch(ci, name[i]) * weights[0]
                                                  + Ch(ci, name[i + 1]) * weights[1] + Ch(ci, name[i + 2]) * weights[2]
  {
    assert Weighted(ci, weights, name, i + 1) == Weighted(ci, weights, name, i) + Ch(ci, name[i]) * weights[0];
    assert Weighted(ci, weights, name, i + 2) == Weighted(ci, weights, name, i + 1) + Ch(ci, name[i + 1]) * weights[1];
  }

  /** The hash in terms of the characters: nothing counts 0, and each further character counts as it is, or as its
      capital where case is ignored, times the weight of its place modulo three. */
  lemma HashByCharacter(ci: bool, weights: seq<int>, name: seq<Byte>, ch: Byte)
    requires |weights| == 3
    ensures Hash(ci, weights, []) == 0
    ensures Hash(ci, weights, name + [ch]) ==
            (Hash(ci, weights, name) + (if ci && 97 <= ch <= 122 then ch - 32 else ch) * weights[|name| % 3]) % 37
  {
    var c := if ci && 97 <= ch <= 122 then ch - 32 else ch;
    WeightedFront(ci, weights, name, ch, |name|);
    assert (name + [ch])[|name|] == ch && Ch(ci, ch) == c;
    ReducedFirst(Weighted(ci, weights, name, |name|), c * weights[|name| % 3]);
  }

  lemma ReducedFirst(sum: int, more: int)
    ensures (sum + more) % 37 == (sum % 37 + more) % 37
  {
    var x := sum % 37 + more;
    assert sum + more == 37 * (sum / 37 + x / 37) + x % 37;
  }

  lemma {:induction false} WeightedFront(ci: bool, weights: seq<int>, name: seq<Byte>, ch: Byte, n: nat)
    requires |weights| == 3 && n <= |name|
    ensures Weighted(ci, weights, name + [ch], n) == Weighted(ci, weights, name, n)
    decreases n
  {
    if n > 0 {
      WeightedFront(ci, weights, name, ch, n - 1);
    }
  }

  /** A word and its key have the same hash. */
  lemma {:induction false} KeyKeepsHash(ci: bool, weights: seq<int>, name: seq<Byte>, n: nat)
    requires |weights| == 3 && n <= |name|
    ensures Weighted(ci, weights, name, n) == Weighted(ci, weights, Key(ci, name), n)
    decreases n
  {
    if n > 0 {
      KeyKeepsHash(ci, weights, name, n - 1);
      assert Ch(ci, Key(ci, name)[n - 1]) == Ch(ci, name[n - 1]);
    }
  }

  // __keyw_strncmp_case_sensitive, __keyw_strncmp_case_insensitive: only the word is put in upper case
  method KeywStrncmp(ci: bool, wrd: seq<Byte>, keyw: seq<Byte>) returns (stat: int)
    requires |wrd| == |keyw|
    ensures stat == 0 <==> Key(ci, wrd) == keyw
    ensures stat == 0 <==> Folded(ci, wrd, keyw)
  {
    FoldedIsKey(ci, wrd, keyw);
    stat := 0;
    for i := 0 to |wrd|
      invariant stat == 0 && forall j :: 0 <= j < i ==> Key(ci, wrd)[j] == keyw[j]
    {
      if Ch(ci, wrd[i]) != keyw[i] {
        stat := (Ch(ci, wrd[i]) as int) - keyw[i];
        assert Key(ci, wrd)[i] != keyw[i];
        return;
      }
    }
  }

  // ---------- the table ----------

  /** A token definition, as far as the table is concerned. */
  class Tokdef {
    const keyword: seq<Byte>
    var link: Tokdef?

    constructor (keyword: seq<Byte>)
      ensures this.keyword == keyword && link == null
    {
      this.keyword, link := keyword, null;
    }
  }

  ghost function NodeAt(s: seq<Tokdef>, i: nat): Tokdef? {
    if i < |s| then s[i] else null
  }

  /** From `head`, the nodes `s` are linked in this order. */
  ghost predicate Linked(head: Tokdef?, s: seq<Tokdef>)
    reads s
  {
    head == NodeAt(s, 0) && forall i {:trigger s[i].link} :: 0 <= i < |s| ==> s[i].link == NodeAt(s, i + 1)
  }

  /** Some node of the chain has this keyword. */
  ghost predicate Chained(s: seq<Tokdef>, word: seq<Byte>) {
    exists i :: 0 <= i < |s| && s[i].keyword == word
  }

  /** No keyword that a look-up can find stands in the chain twice. */
  ghost predicate NoneTwice(ci: bool, s: seq<Tokdef>) {
    forall i, j :: 0 <= i < j < |s| && s[i].keyword == s[j].keyword ==> Key(ci, s[i].keyword) != s[i].keyword
  }

  class Kwtable {
    const ci: bool
    const weights: seq<int>
    const bucketHead: array<Tokdef?>
    ghost var chains: seq<seq<Tokdef>>
    ghost var nodes: set<Tokdef>

    // uls_init_kwtable, uls_reset_kwtable
    constructor (ci: bool, weights: seq<int>)
      requires |weights| == 3
      ensures Valid() && this.ci == ci && this.weights == weights && fresh(bucketHead)
      ensures nodes == {} && forall word :: !Stored(word)
    {
      this.ci, this.weights := ci, weights;
      bucketHead := new Tokdef?[HASH_TABLE_SIZE](_ => null);
      chains, nodes := seq(HASH_TABLE_SIZE, _ => []), {};
    }

    ghost predicate Valid()
      reads this, bucketHead, nodes
    {
      && |weights| == 3 && |chains| == bucketHead.Length == HASH_TABLE_SIZE
      && (forall h, i :: 0 <= h < HASH_TABLE_SIZE && 0 <= i < |chains[h]| ==> chains[h][i] in nodes)
      && (forall h {:trigger chains[h]} :: 0 <= h < HASH_TABLE_SIZE ==> Linked(bucketHead[h], chains[h]))
      && (forall h, i :: 0 <= h < HASH_TABLE_SIZE && 0 <= i < |chains[h]| ==>
                           Hash(ci, weights, chains[h][i].keyword) == h)
      && (forall h {:trigger chains[h]} :: 0 <= h < HASH_TABLE_SIZE ==> NoneTwice(ci, chains[h]))
    }

    /** The keyword is in the table: what a linear search over all entries would find. */
    ghost predicate Stored(word: seq<Byte>)
      reads this
    {
      InSome(chains, word)
    }

    // the chain walk of uls_find_kw
    method FindInChain(idstr: seq<Byte>, head: Tokdef?, ghost s: seq<Tokdef>) returns (e: Tokdef?)
      requires Linked(head, s)
      ensures e == null <==> !Chained(s, Key(ci, idstr))
      ensures e != null ==> e in s && e.keyword == Key(ci, idstr)
    {
      e := head;
      ghost var k: nat := 0;
      while e != null
        invariant k <= |s| && e == NodeAt(s, k) && forall i :: 0 <= i < k ==> s[i].keyword != Key(ci, idstr)
        decreases |s| - k
      {
        if |idstr| == |e.keyword| {
          var stat := KeywStrncmp(ci, idstr, e.keyword);
          if stat == 0 {
            return;
          }
        }
        assert s[k].link == NodeAt(s, k + 1);
        e, k := e.link, k + 1;
      }
    }

    // uls_find_kw
    method FindKw(idstr: seq<Byte>) returns (e: Tokdef?, hashId: nat)
      requires Valid()
      ensures hashId == Hash(ci, weights, idstr) < HASH_TABLE_SIZE
      ensures e == null <==> !Stored(Key(ci, idstr))
      ensures e != null ==> e in nodes && e.keyword == Key(ci, idstr)
      ensures e == null <==> forall keyword :: Stored(keyword) ==> !Folded(ci, idstr, keyword)
      ensures e != null ==> Folded(ci, idstr, e.keyword)
    {
      forall keyword ensures Folded(ci, idstr, keyword) <==> keyword == Key(ci, idstr) {
        FoldedIsKey(ci, idstr, keyword);
      }
      hashId := HashFunc(ci, weights, idstr);
      e := FindInChain(idstr, bucketHead[hashId], chains[hashId]);
      OnlyInItsBucket(idstr);
    }

    lemma OnlyInItsBucket(idstr: seq<Byte>)
      requires Valid()
      ensures Stored(Key(ci, idstr)) <==> Chained(chains[Hash(ci, weights, idstr)], Key(ci, idstr))
    {
      KeyKeepsHash(ci, weights, idstr, |idstr|);
      assert Hash(ci, weights, Key(ci, idstr)) == Hash(ci, weights, idstr);
    }

    // uls_add_kw: the new entry goes to the front of its bucket
    method Insert(e: Tokdef, hashId: nat)
      requires Valid() && e !in nodes && hashId == Hash(ci, weights, e.keyword)
      requires !Chained(chains[hashId], Key(ci, e.keyword))
      modifies this`chains, this`nodes, bucketHead, e
      ensures Valid() && chains == old(chains)[hashId := [e] + old(chains)[hashId]] && nodes == old(nodes) + {e}
    {
      e.link := bucketHead[hashId];
      bucketHead[hashId] := e;
      chains, nodes := chains[hashId := [e] + chains[hashId]], nodes + {e};
    }

    // uls_add_kw; an entry that is on a chain already may be offered again when its keyword is found there
    method AddKw(e: Tokdef) returns (added: bool)
      requires Valid() && (e in nodes ==> Stored(Key(ci, e.keyword)))
      modifies this`chains, this`nodes, bucketHead, e
      ensures Valid() && (added <==> !old(Stored(Key(ci, e.keyword))))
      ensures nodes == old(nodes) + if added then {e} else {}
      ensures forall word :: Stored(word) <==> old(Stored(word)) || (added && word == e.keyword)
    {
      var e2, hashId := FindKw(e.keyword);
      added := e2 == null;
      if added {
        ghost var was := chains;
        OnlyInItsBucket(e.keyword);
        Insert(e, hashId);
        forall word ensures Stored(word) <==> InSome(was, word) || word == e.keyword {
          StoredInFront(was, hashId, e, word);
        }
      }
    }
  }

  lemma KeyTwice(ci: bool, word: seq<Byte>)
    ensures Key(ci, Key(ci, word)) == Key(ci, word) && Key(false, word) == word
  {}

  // ---------- any series of additions ----------

  /** Offered one after another, the entry at position `i` of the series is taken in: no earlier one has its key. */
  ghost predicate TakenIn(ci: bool, entries: seq<Tokdef>, i: nat) {
    i < |entries| && forall j :: 0 <= j < i ==> entries[j].keyword != Key(ci, entries[i].keyword)
  }

  ghost predicate InSeries(ci: bool, entries: seq<Tokdef>, n: nat, word: seq<Byte>)
    requires n <= |entries|
  {
    exists i :: 0 <= i < n && TakenIn(ci, entries, i) && entries[i].keyword == word
  }

  ghost function Taken(ci: bool, entries: seq<Tokdef>, n: nat): set<Tokdef>
    requires n <= |entries|
  {
    set i | 0 <= i < n && TakenIn(ci, entries, i) :: entries[i]
  }

  lemma OneMore(ci: bool, entries: seq<Tokdef>, n: nat)
    requires n < |entries|
    ensures Taken(ci, entries, n + 1) == Taken(ci, entries, n) + if TakenIn(ci, entries, n) then {entries[n]} else {}
    ensures forall word :: InSeries(ci, entries, n + 1, word) <==>
                           InSeries(ci, entries, n, word) || (TakenIn(ci, entries, n) && entries[n].keyword == word)
  {}

  /** What a table that was empty holds after the first `n` additions. */
  ghost predicate HoldsSeries(tbl: Kwtable, entries: seq<Tokdef>, n: nat)
    requires n <= |entries|
    reads tbl
  {
    (forall word :: tbl.Stored(word) <==> InSeries(tbl.ci, entries, n, word)) && tbl.nodes == Taken(tbl.ci, entries, n)
  }

  /** An entry may be offered again when a look-up of its keyword finds it. */
  ghost predicate Offerable(ci: bool, entries: seq<Tokdef>) {
    forall i, j :: 0 <= i < j < |entries| && entries[i] == entries[j] ==>
      Key(ci, entries[i].keyword) == entries[i].keyword
  }

  /** A keyword that is its own key is stored as soon as some entry with it has been offered. */
  lemma KeyStored(tbl: Kwtable, entries: seq<Tokdef>, n: nat, key: seq<Byte>)
    requires n <= |entries| && HoldsSeries(tbl, entries, n) && Key(tbl.ci, key) == key
    ensures tbl.Stored(key) <==> exists i :: 0 <= i < n && entries[i].keyword == key
  {
    if exists i :: 0 <= i < n && entries[i].keyword == key {
      var i := FirstWith(entries, n, key);
      assert TakenIn(tbl.ci, entries, i);
    }
  }

  lemma {:induction false} FirstWith(entries: seq<Tokdef>, n: nat, key: seq<Byte>) returns (i: nat)
    requires n <= |entries| && exists i :: 0 <= i < n && entries[i].keyword == key
    ensures i < n && entries[i].keyword == key && forall j :: 0 <= j < i ==> entries[j].keyword != key
    decreases n
  {
    if exists i :: 0 <= i < n - 1 && entries[i].keyword == key {
      i := FirstWith(entries, n - 1, key);
    } else {
      i := n - 1;
    }
  }

  lemma MayOffer(tbl: Kwtable, entries: seq<Tokdef>, n: nat)
    requires n < |entries| && Offerable(tbl.ci, entries) && HoldsSeries(tbl, entries, n)
    ensures entries[n] in tbl.nodes ==> tbl.Stored(Key(tbl.ci, entries[n].keyword))
  {
    if entries[n] in tbl.nodes {
      var i :| 0 <= i < n && TakenIn(tbl.ci, entries, i) && entries[i] == entries[n];
      assert InSeries(tbl.ci, entries, n, entries[i].keyword);
    }
  }

  // one more addition of a series
  method AddNext(tbl: Kwtable, entries: seq<Tokdef>, n: nat)
    requires n < |entries| && tbl.Valid() && Offerable(tbl.ci, entries) && HoldsSeries(tbl, entries, n)
    modifies tbl`chains, tbl`nodes, tbl.bucketHead, entries
    ensures tbl.Valid() && HoldsSeries(tbl, entries, n + 1)
  {
    KeyTwice(tbl.ci, entries[n].keyword);
    KeyStored(tbl, entries, n, Key(tbl.ci, entries[n].keyword));
    OneMore(tbl.ci, entries, n);
    MayOffer(tbl, entries, n);
    var added := tbl.AddKw(entries[n]);
  }

  /** Any series of additions: the table holds the entries whose key no earlier entry has. */
  method AddAll(tbl: Kwtable, entries: seq<Tokdef>)
    requires tbl.Valid() && tbl.nodes == {} && (forall word :: !tbl.Stored(word)) && Offerable(tbl.ci, entries)
    modifies tbl`chains, tbl`nodes, tbl.bucketHead, entries
    ensures tbl.Valid() && HoldsSeries(tbl, entries, |entries|)
  {
    for n := 0 to |entries|
      invariant tbl.Valid() && HoldsSeries(tbl, entries, n)
    {
      AddNext(tbl, entries, n);
    }
  }

  /** After any series of additions a look-up finds the word exactly as a linear search through the series does. */
  method AddAllThenFind(ci: bool, weights: seq<int>, entries: seq<Tokdef>, word: seq<Byte>) returns (e: Tokdef?)
    requires |weights| == 3 && Offerable(ci, entries)
    modifies entries
    ensures e == null <==> forall i :: 0 <= i < |entries| ==> entries[i].keyword != Key(ci, word)
    ensures e != null ==> exists i :: 0 <= i < |entries| && entries[i] == e && e.keyword == Key(ci, word)
                                      && forall j :: 0 <= j < i ==> entries[j].keyword != Key(ci, word)
    ensures e == null <==> forall i :: 0 <= i < |entries| ==> !Folded(ci, word, entries[i].keyword)
    ensures e != null ==> exists i :: 0 <= i < |entries| && entries[i] == e && Folded(ci, word, e.keyword)
                                      && forall j :: 0 <= j < i ==> !Folded(ci, word, entries[j].keyword)
  {
    forall keyword ensures Folded(ci, word, keyword) <==> keyword == Key(ci, word) {
      FoldedIsKey(ci, word, keyword);
    }
    var tbl := new Kwtable(ci, weights);
    AddAll(tbl, entries);
    KeyTwice(ci, word);
    KeyStored(tbl, entries, |entries|, Key(ci, word));
    var hashId;
    e, hashId := tbl.FindKw(word);
  }

  /** When all entries are in upper case, a look-up finds an entry exactly when one is equal ignoring ASCII case. */
  lemma FoundIgnoringCase(tbl: Kwtable, word: seq<Byte>)
    requires forall k :: tbl.Stored(k) ==> Key(tbl.ci, k) == k
    ensures tbl.Stored(Key(tbl.ci, word)) <==> exists k :: tbl.Stored(k) && Key(tbl.ci, k) == Key(tbl.ci, word)
    ensures tbl.ci ==> (tbl.Stored(Key(tbl.ci, word)) <==> exists k :: tbl.Stored(k) && SameButCase(word, k))
  {
    KeyTwice(tbl.ci, word);
    if tbl.ci {
      FoldedIsKey(true, word, Key(true, word));
      forall k | tbl.Stored(k) ensures SameButCase(word, k) <==> k == Key(true, word) {
        OwnKey(true, k);
        SameButCaseIsFolded(word, k);
        FoldedIsKey(true, word, k);
      }
    }
  }

  /** Keywords with a lower-case letter are nobody's key in a table that ignores case; all others are their own. */
  lemma OwnKey(ci: bool, keyword: seq<Byte>)
    ensures (exists word :: Key(ci, word) == keyword) <==> Key(ci, keyword) == keyword
    ensures Key(ci, keyword) == keyword <==>
      !ci || forall i :: 0 <= i < |keyword| ==> !(LOWER_A <= keyword[i] <= LOWER_A + 25)
  {
    forall word | Key(ci, word) == keyword ensures Key(ci, keyword) == keyword {
      KeyTwice(ci, word);
    }
    forall i | 0 <= i < |keyword| ensures Key(ci, keyword)[i] == Ch(ci, keyword[i]) {}
    if !ci || forall i :: 0 <= i < |keyword| ==> !(LOWER_A <= keyword[i] <= LOWER_A + 25) {
      assert Key(ci, keyword) == keyword;
    }
  }

  /** A stored keyword is given out, for itself or for any other word, if and only if the table does not ignore case or
      the keyword has no lower-case letter. */
  method FindStored(tbl: Kwtable, keyword: seq<Byte>, word: seq<Byte>) returns (same: bool, other: bool)
    requires tbl.Valid() && tbl.Stored(keyword)
    ensures same <==> !tbl.ci || forall i :: 0 <= i < |keyword| ==> !(LOWER_A <= keyword[i] <= LOWER_A + 25)
    ensures other ==> same
  {
    OwnKey(tbl.ci, keyword);
    var e1, h1 := tbl.FindKw(keyword);
    var e2, h2 := tbl.FindKw(word);
    same := e1 != null && e1.keyword == keyword;
    other := e2 != null && e2.keyword == keyword;
  }

  /** The second of two entries with one keyword is refused if and only if a look-up can give out the first. */
  method AddTwice(tbl: Kwtable, e1: Tokdef, e2: Tokdef) returns (refused: bool)
    requires tbl.Valid() && tbl.nodes == {} && (forall word :: !tbl.Stored(word)) && e1 != e2
    requires e1.keyword == e2.keyword
    modifies tbl`chains, tbl`nodes, tbl.bucketHead, e1, e2
    ensures tbl.Valid() && (forall word :: tbl.Stored(word) <==> word == e1.keyword)
    ensures refused <==> Key(tbl.ci, e1.keyword) == e1.keyword
  {
    var added := tbl.AddKw(e1);
    added := tbl.AddKw(e2);
    refused := !added;
  }

  /** The word `if` in a table that ignores case: stored, twice when it is offered twice, and not found. */
  method LowerCaseLost(weights: seq<int>) returns (tbl: Kwtable, e: Tokdef?, refused: bool)
    requires |weights| == 3
    ensures tbl.Valid() && tbl.ci && tbl.Stored([105, 102]) && e == null && !refused
  {
    tbl := new Kwtable(true, weights);
    var e1 := new Tokdef([105, 102]);
    var e2 := new Tokdef([105, 102]);
    assert Key(true, [105, 102])[0] == 73;
    refused := AddTwice(tbl, e1, e2);
    var hashId;
    e, hashId := tbl.FindKw([105, 102]);
  }

  ghost predicate InSome(chains: seq<seq<Tokdef>>, word: seq<Byte>) {
    exists h :: 0 <= h < |chains| && Chained(chains[h], word)
  }

  lemma StoredInFront(chains: seq<seq<Tokdef>>, h: nat, e: Tokdef, word: seq<Byte>)
    requires h < |chains|
    ensures InSome(chains[h := [e] + chains[h]], word) <==> InSome(chains, word) || word == e.keyword
  {
    var chains' := chains[h := [e] + chains[h]];
    ChainedInFront(chains[h], e, word);
    forall g | 0 <= g < |chains| && g != h ensures chains'[g] == chains[g] {}
    if word == e.keyword || Chained(chains[h], word) {
      assert Chained(chains'[h], word);
    }
    if InSome(chains, word) {
      var g :| 0 <= g < |chains| && Chained(chains[g], word);
      assert Chained(chains'[g], word);
    }
    if InSome(chains', word) {
      var g :| 0 <= g < |chains| && Chained(chains'[g], word);
      assert g != h ==> Chained(chains[g], word);
    }
  }

  lemma ChainedInFront(s: seq<Tokdef>, e: Tokdef, word: seq<Byte>)
    ensures Chained([e] + s, word) <==> Chained(s, word) || word == e.keyword
  {
    var t := [e] + s;
    assert t[0] == e && forall i :: 0 <= i < |s| ==> s[i] == t[i + 1];
    if Chained(t, word) {
      var i :| 0 <= i < |t| && t[i].keyword == word;
      assert i > 0 ==> t[i] == s[i - 1];
    }
  }
}
