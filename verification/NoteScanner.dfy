/** Incremental scanning for one viewing key, and note selection (sdk/note-discovery/index.ts). */
module NoteScanners {
  import opened Hex
  import opened Field
  import opened MerkleSpec
  import opened CommitmentTrees
  import opened JsMaps
  import opened Encryption
  import opened Results

  datatype PublishedNote = PublishedNote(commitment: Bytes32, leafIndex: nat, payload: Bytes)

  datatype OwnedNote = OwnedNote(payload: NotePayload, leafIndex: nat, spent: bool)

  datatype ScanError = TreeIsFull | NotOwned | NoLeaf | InsufficientBalance

  type Owned = JsMap<string, OwnedNote>

  /** Trial decryption with one viewing key, and the caller's nullifier derivation. */
  datatype Keys = Keys(decrypt: Bytes -> Option<NotePayload>, nullifierFor: OwnedNote -> Option<Bytes32>)

  // ---- what one sync does ----

  datatype Scan = Scan(leaves: seq<Bytes32>, owned: Owned, nextIndex: nat)

  const NOTHING := Scan([], [], 0)

  function ScanOne(k: Keys, s: Scan, note: PublishedNote): Scan
  {
    var payload := k.decrypt(note.payload);
    Scan(s.leaves + [note.commitment],
         if payload.None? then s.owned
             else Set(s.owned, HexOf(note.commitment), OwnedNote(payload.value, note.leafIndex, false)),
         note.leafIndex + 1)
  }

  function ScanAll(k: Keys, s: Scan, notes: seq<PublishedNote>): Scan
  {
    if notes == [] then s else ScanOne(k, ScanAll(k, s, notes[..|notes| - 1]), notes[|notes| - 1])
  }

  function RefreshOne(k: Keys, n: OwnedNote, nullifiers: set<Bytes32>): OwnedNote
  {
    if n.spent then n
    else
      var nf := k.nullifierFor(n);
      if nf.Some? && nf.value in nullifiers then n.(spent := true) else n
  }

  function Refresh(k: Keys, owned: Owned, nullifiers: set<Bytes32>): Owned
  {
    if owned == [] then []
    else [Entry(owned[0].key, RefreshOne(k, owned[0].value, nullifiers))] + Refresh(k, owned[1..], nullifiers)
  }

  function SyncSpec(k: Keys, s: Scan, notes: seq<PublishedNote>, nullifiers: set<Bytes32>): Scan
  {
    var t := ScanAll(k, s, notes);
    t.(owned := Refresh(k, t.owned, nullifiers))
  }

  /** One sync, as the code does it: a tree that fills up throws part-way, and nothing is refreshed. */
  function SyncStep(k: Keys, s: Scan, notes: seq<PublishedNote>, nullifiers: set<Bytes32>): Scan
    requires |s.leaves| <= MAX_LEAVES
  {
    if |s.leaves| + |notes| <= MAX_LEAVES then SyncSpec(k, s, notes, nullifiers)
    else ScanAll(k, s, notes[..MAX_LEAVES - |s.leaves|])
  }

  /** A note is spent once it was, or once its own nullifier is among those on chain. */
  ghost predicate IsSpentNow(k: Keys, n: OwnedNote, nullifiers: set<Bytes32>)
  {
    n.spent || (k.nullifierFor(n).Some? && k.nullifierFor(n).value in nullifiers)
  }

  function UnspentOf(owned: Owned): seq<OwnedNote>
  {
    if owned == [] then [] else (if owned[0].value.spent then [] else [owned[0].value]) + UnspentOf(owned[1..])
  }

  class NoteScanner {
    const keys: Keys
    const tree: CommitmentTree
    var owned: Owned
    var nextIndex: nat

    ghost predicate Valid()
      reads this, tree
    {
      tree.Valid()
    }

    ghost function Model(): Scan
      reads this, tree
    {
      Scan(tree.leaves, owned, nextIndex)
    }

    constructor (keys: Keys, poseidon: Poseidon2)
      ensures Valid() && fresh(tree) && Model() == NOTHING && tree.depth == TREE_DEPTH && tree.poseidon == poseidon
              && this.keys == keys
    {
      this.keys := keys;
      tree := new CommitmentTree(poseidon, TREE_DEPTH);
      owned, nextIndex := [], 0;
    }

    /** Resume over what the chain returned from `nextIndex` on. A full tree throws part-way. */
    method Sync(notes: seq<PublishedNote>, nullifiers: set<Bytes32>) returns (r: Result<nat, ScanError>)
      requires Valid()
      modifies this, tree
      ensures Valid()
      ensures r == if old(tree.count) + |notes| <= MAX_LEAVES then Ok(|notes|) else Err(TreeIsFull)
      ensures old(tree.count) == |old(tree.leaves)| <= MAX_LEAVES
      ensures Model() == SyncStep(keys, old(Model()), notes, nullifiers)
    {
      hide RefreshOne, Set, HexOf;
      for i := 0 to |notes|
        invariant Valid() && tree.count == old(tree.count) + i
        invariant Model() == ScanAll(keys, old(Model()), notes[..i])
      {
        var note := notes[i];
        assert notes[..i + 1][..i] == notes[..i];
        var inserted := tree.Insert(note.commitment);
        if inserted.Err? { return Err(TreeIsFull); }
        nextIndex := note.leafIndex + 1;
        var payload := keys.decrypt(note.payload);
        if payload.Some? {
          owned := Set(owned, HexOf(note.commitment), OwnedNote(payload.value, note.leafIndex, false));
        }
      }
      assert notes[..|notes|] == notes;
      RefreshSpent(nullifiers);
      r := Ok(|notes|);
    }

    /** Flag the notes whose nullifier is on chain. */
    method RefreshSpent(nullifiers: set<Bytes32>)
      modifies this`owned
      ensures owned == Refresh(keys, old(owned), nullifiers)
      ensures |owned| == |old(owned)|
      ensures forall j :: 0 <= j < |owned| ==>
                && owned[j].key == old(owned)[j].key
                && owned[j].value == old(owned)[j].value.(spent := IsSpentNow(keys, old(owned)[j].value, nullifiers))
    {
      var done: Owned := [];
      for i := 0 to |owned|
        invariant owned == old(owned)
        invariant |done| == i
        invariant forall j :: 0 <= j < i ==>
                    done[j] == Entry(owned[j].key, RefreshOne(keys, owned[j].value, nullifiers))
      {
        var note := owned[i].value;
        if !note.spent {
          var nf := keys.nullifierFor(note);
          if nf.Some? && nf.value in nullifiers { note := note.(spent := true); }
        }
        done := done + [Entry(owned[i].key, note)];
      }
      RefreshByEntry(keys, owned, nullifiers, done);
      RefreshExact(keys, owned, nullifiers);
      owned := done;
    }

    function Notes(): seq<OwnedNote>
      reads this
    {
      UnspentOf(owned)
    }

    function Balance(): int
      reads this
    {
      Total(Notes())
    }

    /** Pick unspent notes covering `amount`. */
    method SelectNotes(amount: int) returns (r: Result<seq<OwnedNote>, ScanError>)
      ensures r.Err? <==> amount > 0 && PositiveTotal(Notes()) < amount
      ensures Balance() >= amount ==> r.Ok?
      ensures r.Ok? ==> multiset(r.value) <= multiset(Notes()) && Total(r.value) >= amount
      ensures r.Ok? ==> forall t: seq<OwnedNote> | multiset(t) <= multiset(Notes()) && |t| < |r.value| ::
              Total(t) < amount
      ensures r.Ok? ==> forall n :: n in r.value ==> !n.spent && exists j :: 0 <= j < |owned| && owned[j].value == n
    {
      var notes := Notes();
      r := Select(notes, amount);
      TotalIsPositiveIffNoDebt(notes);
      if r.Ok? {
        forall n | n in r.value ensures !n.spent && exists j :: 0 <= j < |owned| && owned[j].value == n {
          assert n in multiset(notes);
          UnspentExactly(owned, n);
        }
      }
    }

    method ProofFor(commitment: Bytes32) returns (r: Result<MerkleProof, ScanError>)
      requires Valid()
      ensures var note := Get(owned, HexOf(commitment));
              && (note.None? ==> r == Err(NotOwned))
              && (note.Some? && note.value.leafIndex < |tree.leaves| ==>
                    r == Ok(ProofOf(tree.poseidon, tree.leaves, tree.depth, note.value.leafIndex)))
              && (note.Some? && note.value.leafIndex >= |tree.leaves| ==> r == Err(NoLeaf))
    {
      var note := Get(owned, HexOf(commitment));
      if note.None? { return Err(NotOwned); }
      var proof := tree.Proof(note.value.leafIndex);
      r := if proof.Ok? then Ok(proof.value) else Err(NoLeaf);
    }
  }

  /** Exactly the unspent notes are listed... */
  lemma {:induction false} UnspentExactly(owned: Owned, n: OwnedNote)
    ensures n in UnspentOf(owned) <==> !n.spent && exists j :: 0 <= j < |owned| && owned[j].value == n
  {
    if owned != [] {
      var rest := owned[1..];
      UnspentExactly(rest, n);
      if j :| 0 <= j < |owned| && owned[j].value == n && j > 0 { assert rest[j - 1].value == n; }
      if j :| 0 <= j < |rest| && rest[j].value == n { assert owned[j + 1].value == n; }
    }
  }

  /** ...each as often as it is held, in the order of the map. */
  lemma {:induction false} UnspentInOrder(a: Owned, b: Owned)
    ensures UnspentOf(a + b) == UnspentOf(a) + UnspentOf(b)
    ensures |a| == 1 ==> UnspentOf(a) == if a[0].value.spent then [] else [a[0].value]
  {
    hide UnspentOf;
    NoneUnspent();
    if a == [] {
      assert a + b == b;
    } else {
      UnspentInOrder(a[1..], b);
      UnspentFirst(a[0], a[1..]);
      UnspentFirst(a[0], a[1..] + b);
      assert a == [a[0]] + a[1..] && a + b == [a[0]] + (a[1..] + b);
    }
  }

  lemma NoneUnspent()
    ensures UnspentOf([]) == []
  {}

  lemma UnspentFirst(first: Entry<string, OwnedNote>, rest: Owned)
    ensures UnspentOf([first] + rest) == (if first.value.spent then [] else [first.value]) + UnspentOf(rest)
  {
    assert ([first] + rest)[1..] == rest;
  }

  lemma {:induction false} RefreshByEntry(k: Keys, owned: Owned, nullifiers: set<Bytes32>, done: Owned)
    requires |done| == |owned|
    requires forall j :: 0 <= j < |owned| ==> done[j] == Entry(owned[j].key, RefreshOne(k, owned[j].value, nullifiers))
    ensures done == Refresh(k, owned, nullifiers)
  {
    hide RefreshOne;
    if owned != [] { RefreshByEntry(k, owned[1..], nullifiers, done[1..]); }
  }

  // ---- chunk independence ----

  /** What a refresh does, entry by entry: the flag of a note whose nullifier is on chain is set, and nothing else is
      touched. */
  lemma {:induction false} RefreshExact(k: Keys, owned: Owned, nullifiers: set<Bytes32>)
    ensures |Refresh(k, owned, nullifiers)| == |owned|
    ensures forall j :: 0 <= j < |owned| ==>
              && Refresh(k, owned, nullifiers)[j].key == owned[j].key
              && Refresh(k, owned, nullifiers)[j].value
                 == owned[j].value.(spent := IsSpentNow(k, owned[j].value, nullifiers))
  {
    if owned != [] { RefreshExact(k, owned[1..], nullifiers); }
  }

  /** The same by key. */
  lemma RefreshedUnder(k: Keys, owned: Owned, nullifiers: set<Bytes32>, c: string)
    ensures Get(Refresh(k, owned, nullifiers), c) ==
            var was := Get(owned, c);
            if was.None? then None else Some(was.value.(spent := IsSpentNow(k, was.value, nullifiers)))
  {
    RefreshKeepsPlace(k, owned, nullifiers, c);
  }

  /** Refreshing with more nullifiers absorbs an earlier refresh with fewer. */
  lemma {:induction false} RefreshTwice(k: Keys, owned: Owned, early: set<Bytes32>, late: set<Bytes32>)
    requires early <= late
    ensures Refresh(k, Refresh(k, owned, early), late) == Refresh(k, owned, late)
  {
    if owned != [] { RefreshTwice(k, owned[1..], early, late); }
  }

  lemma {:induction false} RefreshSet(k: Keys, owned: Owned, key: string, n: OwnedNote, nullifiers: set<Bytes32>)
    ensures Refresh(k, Set(owned, key, n), nullifiers)
            == Set(Refresh(k, owned, nullifiers), key, RefreshOne(k, n, nullifiers))
  {
    hide RefreshOne;
    if owned != [] && owned[0].key != key {
      RefreshSet(k, owned[1..], key, n, nullifiers);
    }
  }

  /** Scanning on from an already refreshed map ends, once refreshed, where scanning from the raw one does. */
  lemma {:induction false} ScanAfterRefresh(k: Keys, s: Scan, notes: seq<PublishedNote>, early: set<Bytes32>,
                                            late: set<Bytes32>)
    requires early <= late
    ensures SyncSpec(k, s.(owned := Refresh(k, s.owned, early)), notes, late) == SyncSpec(k, s, notes, late)
  {
    hide Refresh, RefreshOne, Set, HexOf;
    if notes == [] {
      RefreshTwice(k, s.owned, early, late);
    } else {
      var rest, note := notes[..|notes| - 1], notes[|notes| - 1];
      ScanAfterRefresh(k, s, rest, early, late);
      var a, b := ScanAll(k, s.(owned := Refresh(k, s.owned, early)), rest), ScanAll(k, s, rest);
      var payload := k.decrypt(note.payload);
      if payload.Some? {
        var n := OwnedNote(payload.value, note.leafIndex, false);
        RefreshSet(k, a.owned, HexOf(note.commitment), n, late);
        RefreshSet(k, b.owned, HexOf(note.commitment), n, late);
      }
    }
  }

  lemma {:induction false} ScanSplit(k: Keys, s: Scan, a: seq<PublishedNote>, b: seq<PublishedNote>)
    ensures ScanAll(k, s, a + b) == ScanAll(k, ScanAll(k, s, a), b)
  {
    hide ScanOne;
    if b == [] {
      assert a + b == a;
    } else {
      ScanSplit(k, s, a, b[..|b| - 1]);
      assert (a + b)[..|a + b| - 1] == a + b[..|b| - 1];
    }
  }

  /** One sync: how many notes the chain had by then, and its nullifiers. */
  datatype Chunk = Chunk(upTo: nat, nullifiers: set<Bytes32>)

  /** The chain only grows, and leaf indices are consecutive from zero. */
  ghost predicate Growing(chain: seq<PublishedNote>, chunks: seq<Chunk>)
  {
    && (forall i :: 0 <= i < |chain| ==> chain[i].leafIndex == i)
    && (forall i :: 0 <= i < |chunks| ==> chunks[i].upTo <= |chain|)
    && (forall i :: 0 < i < |chunks| ==>
          chunks[i - 1].upTo <= chunks[i].upTo && chunks[i - 1].nullifiers <= chunks[i].nullifiers)
  }

  function FetchFrom(chain: seq<PublishedNote>, upTo: nat, from: nat): seq<PublishedNote>
    requires upTo <= |chain|
  {
    if from <= upTo then chain[from..upTo] else []
  }

  /** A sequence of incremental syncs, each resuming where the last one stopped. */
  ghost function SyncRun(k: Keys, chain: seq<PublishedNote>, chunks: seq<Chunk>): (s: Scan)
    requires Growing(chain, chunks)
    ensures |s.leaves| <= MAX_LEAVES
  {
    if chunks == [] then NOTHING
    else
      hide ScanOne, Refresh;
      var n := |chunks| - 1;
      var before := SyncRun(k, chain, chunks[..n]);
      var notes := FetchFrom(chain, chunks[n].upTo, before.nextIndex);
      ScanCounts(k, before, notes);
      ScanCounts(k, before, notes[..if |before.leaves| + |notes| <= MAX_LEAVES then |notes|
                                  else MAX_LEAVES - |before.leaves|]);
      SyncStep(k, before, notes, chunks[n].nullifiers)
  }

  lemma {:induction false} ScanCounts(k: Keys, s: Scan, notes: seq<PublishedNote>)
    ensures |ScanAll(k, s, notes).leaves| == |s.leaves| + |notes|
  {
    if notes != [] { ScanCounts(k, s, notes[..|notes| - 1]); }
  }

  lemma {:induction false} NextIndexCounts(k: Keys, chain: seq<PublishedNote>, n: nat)
    requires n <= |chain| && forall i :: 0 <= i < |chain| ==> chain[i].leafIndex == i
    ensures ScanAll(k, NOTHING, chain[..n]).nextIndex == n && |ScanAll(k, NOTHING, chain[..n]).leaves| == n
  {
    hide Set, HexOf;
    if n > 0 {
      NextIndexCounts(k, chain, n - 1);
      assert chain[..n][..n - 1] == chain[..n - 1];
    }
  }

  /** How much of the chain the tree has room for. */
  function Room(n: nat): nat
  {
    if n <= MAX_LEAVES then n else MAX_LEAVES
  }

  /** The last sync that the tree had room for. */
  function LastFit(chunks: seq<Chunk>): (fit: Chunk)
    ensures fit.upTo <= MAX_LEAVES
  {
    if chunks == [] then Chunk(0, {})
    else
      var last := chunks[|chunks| - 1];
      if last.upTo <= MAX_LEAVES then last else LastFit(chunks[..|chunks| - 1])
  }

  /** Where a commitment text was last published to us. */
  function LastOwned(k: Keys, notes: seq<PublishedNote>, c: string): (i: Option<nat>)
    ensures i.Some? ==> && i.value < |notes| && k.decrypt(notes[i.value].payload).Some?
                        && HexOf(notes[i.value].commitment) == c
  {
    if notes == [] then None
    else
      var n := |notes| - 1;
      if k.decrypt(notes[n].payload).Some? && HexOf(notes[n].commitment) == c then Some(n)
          else LastOwned(k, notes[..n], c)
  }

  ghost predicate SpentBy(k: Keys, note: PublishedNote, nullifiers: set<Bytes32>)
  {
    var payload := k.decrypt(note.payload);
    payload.Some? &&
    var nullifier := k.nullifierFor(OwnedNote(payload.value, note.leafIndex, false));
    nullifier.Some? && nullifier.value in nullifiers
  }

  /** Some note of ours was spent by the last sync that the tree had room for, and is not published again
      before the tree is full. */
  ghost predicate FlagOutlivesFit(k: Keys, chain: seq<PublishedNote>, fit: Chunk)
  {
    exists i :: 0 <= i < fit.upTo && i < |chain| && SpentBy(k, chain[i], fit.nullifiers)
             && LastOwned(k, chain[..Room(|chain|)], HexOf(chain[i].commitment)) == Some(i)
  }

  /** Chunk independence: any sequence of incremental syncs ends in the tree, the owned map (order included)
      and the position of one full sync of everything. In its spent flags too, exactly when the tree has room
      for everything or no flag set while it had room is left; the next refresh would make up for the rest. */
  lemma ChunkIndependent(k: Keys, chain: seq<PublishedNote>, chunks: seq<Chunk>, late: set<Bytes32>)
    requires Growing(chain, chunks) && chunks != []
    requires chunks[|chunks| - 1].nullifiers <= late
    ensures var last, run := chunks[|chunks| - 1], SyncRun(k, chain, chunks);
            var full := SyncStep(k, NOTHING, chain[..last.upTo], last.nullifiers);
            && run.leaves == full.leaves && run.nextIndex == full.nextIndex
            && (run == full <==> last.upTo <= MAX_LEAVES || !FlagOutlivesFit(k, chain, LastFit(chunks)))
            && Refresh(k, run.owned, late) == Refresh(k, full.owned, late)
  {
    hide ScanAll, Refresh, SyncSpec, FlagOutlivesFit;
    var last, run := chunks[|chunks| - 1], SyncRun(k, chain, chunks);
    RunIsFullScan(k, chain, chunks, late);
    var whole := ScanAll(k, NOTHING, chain[..Room(last.upTo)]);
    JustRefresh(k, run, late);
    JustRefresh(k, whole, late);
    JustRefresh(k, whole, last.nullifiers);
    FullSync(k, chain, last);
    RefreshTwice(k, whole.owned, last.nullifiers, late);
    if last.upTo > MAX_LEAVES { FlagsPastRoom(k, chain, chunks, late); }
  }

  // ---- the flags of a run that outgrew the tree ----

  ghost predicate AllUnspent(owned: Owned)
  {
    forall j :: 0 <= j < |owned| ==> !owned[j].value.spent
  }

  ghost predicate Flagged(owned: Owned, c: string)
  {
    Get(owned, c).Some? && Get(owned, c).value.spent
  }

  lemma FlagsPastRoom(k: Keys, chain: seq<PublishedNote>, chunks: seq<Chunk>, late: set<Bytes32>)
    requires Growing(chain, chunks) && chunks != [] && chunks[|chunks| - 1].upTo > MAX_LEAVES
    requires var run, whole := SyncRun(k, chain, chunks), ScanAll(k, NOTHING, chain[..MAX_LEAVES]);
             Refresh(k, run.owned, late) == Refresh(k, whole.owned, late)
    ensures SyncRun(k, chain, chunks).owned == ScanAll(k, NOTHING, chain[..MAX_LEAVES]).owned
            <==> !FlagOutlivesFit(k, chain, LastFit(chunks))
  {
    hide ScanAll, Refresh, Growing, FlagOutlivesFit, SyncRun, AllUnspent, SyncSpec;
    PrefixGrows(chain, chunks);
    var fit, run, whole := LastFit(chunks), SyncRun(k, chain, chunks), ScanAll(k, NOTHING, chain[..MAX_LEAVES]);
    FitFits(chain, chunks);
    OverfullRun(k, chain, chunks);
    ScanOfNothing(k, chain[..MAX_LEAVES]);
    ScanOfNothing(k, chain[..fit.upTo]);
    var early := SyncSpec(k, ScanAll(k, NOTHING, chain[..fit.upTo]), [], fit.nullifiers);
    JustRefresh(k, ScanAll(k, NOTHING, chain[..fit.upTo]), fit.nullifiers);
    RefreshKeepsDistinct(k, ScanAll(k, NOTHING, chain[..fit.upTo]).owned, fit.nullifiers);
    ScanKeepsDistinct(k, early, chain[fit.upTo..MAX_LEAVES]);
    UnflaggedIsSame(k, run.owned, whole.owned, late);
    FlagsLeft(k, chain, fit, run.owned);
  }

  lemma {:induction false} FitFits(chain: seq<PublishedNote>, chunks: seq<Chunk>)
    requires Growing(chain, chunks)
    ensures LastFit(chunks).upTo <= |chain|
  {
    if chunks != [] { FitFits(chain, chunks[..|chunks| - 1]); }
  }

  lemma OverfullStep(k: Keys, chain: seq<PublishedNote>, run: Scan, m: nat, chunk: Chunk)
    requires |run.leaves| == run.nextIndex == m <= MAX_LEAVES < chunk.upTo <= |chain|
    ensures SyncStep(k, run, FetchFrom(chain, chunk.upTo, m), chunk.nullifiers) == ScanAll(k, run, chain[m..MAX_LEAVES])
  {
    hide ScanAll, SyncSpec;
    assert chain[m..chunk.upTo][..MAX_LEAVES - m] == chain[m..MAX_LEAVES];
  }

  /** Past its room a run only scans: what the last fitting sync left, and then the rest that fits. */
  lemma {:induction false} OverfullRun(k: Keys, chain: seq<PublishedNote>, chunks: seq<Chunk>)
    requires Growing(chain, chunks) && chunks != [] && chunks[|chunks| - 1].upTo > MAX_LEAVES
    requires LastFit(chunks).upTo <= |chain|
    ensures var fit := LastFit(chunks);
            SyncRun(k, chain, chunks)
            == ScanAll(k, SyncSpec(k, ScanAll(k, NOTHING, chain[..fit.upTo]), [], fit.nullifiers),
                       chain[fit.upTo..MAX_LEAVES])
  {
    hide ScanOne, Refresh, Growing, SyncStep, FetchFrom, SyncSpec;
    var n := |chunks| - 1;
    var last, before := chunks[n], chunks[..n];
    PrefixGrows(chain, chunks);
    if before == [] {
      JustRefresh(k, NOTHING, {});
      NothingToRefresh(k, {});
      OverfullStep(k, chain, NOTHING, 0, last);
    } else {
      var prev, run := chunks[n - 1], SyncRun(k, chain, before);
      var m := Room(prev.upTo);
      RunIsFullScan(k, chain, before, prev.nullifiers);
      JustRefresh(k, run, prev.nullifiers);
      JustRefresh(k, ScanAll(k, NOTHING, chain[..m]), prev.nullifiers);
      NextIndexCounts(k, chain, m);
      OverfullStep(k, chain, run, m, last);
      if prev.upTo > MAX_LEAVES { OverfullRun(k, chain, before); }
    }
  }

  lemma NothingToRefresh(k: Keys, nullifiers: set<Bytes32>)
    ensures Refresh(k, [], nullifiers) == []
  {}

  lemma {:induction false} ScanKeepsDistinct(k: Keys, s: Scan, notes: seq<PublishedNote>)
    requires Distinct(s.owned)
    ensures Distinct(ScanAll(k, s, notes).owned)
  {
    if notes != [] {
      hide Distinct, Set;
      var rest, note := notes[..|notes| - 1], notes[|notes| - 1];
      ScanKeepsDistinct(k, s, rest);
      var payload := k.decrypt(note.payload);
      if payload.Some? {
        SetKeepsDistinct(ScanAll(k, s, rest).owned, HexOf(note.commitment),
                         OwnedNote(payload.value, note.leafIndex, false));
      }
    }
  }

  lemma {:induction false} RefreshKeepsDistinct(k: Keys, owned: Owned, nullifiers: set<Bytes32>)
    ensures JsMaps.Keys(Refresh(k, owned, nullifiers)) == JsMaps.Keys(owned)
    ensures Distinct(owned) ==> Distinct(Refresh(k, owned, nullifiers))
  {
    if owned != [] { RefreshKeepsDistinct(k, owned[1..], nullifiers); }
  }

  lemma {:induction false} ScanOfNothing(k: Keys, notes: seq<PublishedNote>)
    ensures Distinct(ScanAll(k, NOTHING, notes).owned) && AllUnspent(ScanAll(k, NOTHING, notes).owned)
  {
    ScanKeepsDistinct(k, NOTHING, notes);
    if notes != [] {
      hide Distinct, Set, AllUnspent;
      var rest, note := notes[..|notes| - 1], notes[|notes| - 1];
      ScanOfNothing(k, rest);
      var payload := k.decrypt(note.payload);
      if payload.Some? {
        SetUnspent(ScanAll(k, NOTHING, rest).owned, HexOf(note.commitment),
                   OwnedNote(payload.value, note.leafIndex, false));
      }
    }
  }

  lemma {:induction false} SetUnspent(owned: Owned, c: string, n: OwnedNote)
    requires AllUnspent(owned) && !n.spent
    ensures AllUnspent(Set(owned, c, n))
  {
    if owned != [] && owned[0].key != c {
      assert AllUnspent(owned[1..]);
      SetUnspent(owned[1..], c, n);
    }
  }

  /** Of two maps that refresh alike, the second unflagged, they are the same exactly when no lookup in the first finds
      a flag. */
  lemma UnflaggedIsSame(k: Keys, a: Owned, b: Owned, late: set<Bytes32>)
    requires Distinct(a) && AllUnspent(b) && Refresh(k, a, late) == Refresh(k, b, late)
    ensures a != b <==> exists c :: Flagged(a, c)
  {
    UnspentByKey(a);
    if AllUnspent(a) { UnspentAlike(k, a, b, late); }
  }

  lemma {:induction false} UnspentByKey(owned: Owned)
    requires Distinct(owned)
    ensures AllUnspent(owned) <==> forall c :: !Flagged(owned, c)
  {
    if owned != [] {
      var first, rest := owned[0], owned[1..];
      UnspentByKey(rest);
      assert AllUnspent(owned) <==> !first.value.spent && AllUnspent(rest) by { assert owned == [first] + rest; }
      GetNone(rest, first.key);
      assert Get(owned, first.key) == Some(first.value);
      forall c ensures Flagged(owned, c) <==> if c == first.key then first.value.spent else Flagged(rest, c) {}
      assert !Flagged(rest, first.key);
    }
  }

  lemma {:induction false} UnspentAlike(k: Keys, a: Owned, b: Owned, late: set<Bytes32>)
    requires AllUnspent(a) && AllUnspent(b) && Refresh(k, a, late) == Refresh(k, b, late)
    ensures a == b
  {
    if a != [] && b != [] {
      assert Refresh(k, a, late)[0] == Refresh(k, b, late)[0] && Refresh(k, a, late)[1..] == Refresh(k, b, late)[1..];
      assert !a[0].value.spent && !b[0].value.spent;
      UnspentAlike(k, a[1..], b[1..], late);
      assert a == [a[0]] + a[1..] && b == [b[0]] + b[1..];
    }
  }

  /** What a scan leaves under a commitment text: the last note published to us under it, or what was there. */
  lemma {:induction false} ScanOwned(k: Keys, s: Scan, notes: seq<PublishedNote>, c: string)
    ensures Get(ScanAll(k, s, notes).owned, c) ==
            var i := LastOwned(k, notes, c);
            if i.None? then Get(s.owned, c)
            else Some(OwnedNote(k.decrypt(notes[i.value].payload).value, notes[i.value].leafIndex, false))
  {
    if notes != [] {
      hide Set, Get, HexOf;
      var rest, note := notes[..|notes| - 1], notes[|notes| - 1];
      ScanOwned(k, s, rest, c);
      var payload := k.decrypt(note.payload);
      if payload.Some? {
        GetSet(ScanAll(k, s, rest).owned, HexOf(note.commitment), OwnedNote(payload.value, note.leafIndex, false), c);
      }
    }
  }

  lemma {:induction false} LastOwnedSplit(k: Keys, a: seq<PublishedNote>, b: seq<PublishedNote>, c: string)
    ensures LastOwned(k, a + b, c) ==
            var j := LastOwned(k, b, c); if j.Some? then Some(|a| + j.value) else LastOwned(k, a, c)
  {
    hide HexOf;
    if b == [] {
      assert a + b == a;
    } else {
      LastOwnedSplit(k, a, b[..|b| - 1], c);
      assert (a + b)[..|a + b| - 1] == a + b[..|b| - 1];
    }
  }

  /** Note `i` was published to us under a commitment text, and none after it. */
  ghost predicate PublishedLast(k: Keys, notes: seq<PublishedNote>, c: string, i: nat)
  {
    && i < |notes| && PublishedToUs(k, notes[i], c)
    && forall j :: i < j < |notes| ==> !PublishedToUs(k, notes[j], c)
  }

  ghost predicate PublishedToUs(k: Keys, note: PublishedNote, c: string)
  {
    k.decrypt(note.payload).Some? && HexOf(note.commitment) == c
  }

  lemma {:induction false} LastOwnedExact(k: Keys, notes: seq<PublishedNote>, c: string, i: nat)
    ensures LastOwned(k, notes, c) == Some(i) <==> PublishedLast(k, notes, c, i)
    ensures LastOwned(k, notes, c).None? <==> forall j :: 0 <= j < |notes| ==> !PublishedToUs(k, notes[j], c)
  {
    hide HexOf;
    if notes != [] {
      var n := |notes| - 1;
      LastOwnedExact(k, notes[..n], c, i);
      assert forall j :: 0 <= j < n ==> notes[..n][j] == notes[j];
    }
  }

  /** What is owned after any syncs that the tree had room for: under each commitment text the payload and position of
      the last note published to us under it, flagged if and only if its nullifier was on chain by the last sync. */
  lemma OwnedExactly(k: Keys, chain: seq<PublishedNote>, chunks: seq<Chunk>, c: string, note: OwnedNote)
    requires Growing(chain, chunks) && chunks != [] && chunks[|chunks| - 1].upTo <= MAX_LEAVES
    ensures var last := chunks[|chunks| - 1];
            Get(SyncRun(k, chain, chunks).owned, c) == Some(note) <==>
              && PublishedLast(k, chain[..last.upTo], c, note.leafIndex)
              && k.decrypt(chain[note.leafIndex].payload) == Some(note.payload)
              && note.spent == SpentBy(k, chain[note.leafIndex], last.nullifiers)
  {
    hide ScanAll, Refresh, HexOf, Growing, SyncStep, SyncSpec, SyncRun, Get, LastOwned, PublishedToUs;
    var last := chunks[|chunks| - 1];
    PrefixGrows(chain, chunks);
    var seen := chain[..last.upTo];
    RunIsFullScan(k, chain, chunks, last.nullifiers);
    JustRefresh(k, ScanAll(k, NOTHING, seen), last.nullifiers);
    RefreshedUnder(k, ScanAll(k, NOTHING, seen).owned, last.nullifiers, c);
    ScanOwned(k, NOTHING, seen, c);
    EmptyMap();
    LastOwnedExact(k, seen, c, note.leafIndex);
    var i := LastOwned(k, seen, c);
    if i.Some? { LastOwnedExact(k, seen, c, i.value); }
  }

  /** A flag is left under a commitment text exactly when the last note published under it was already there. */
  lemma FlagsLeft(k: Keys, chain: seq<PublishedNote>, fit: Chunk, owned: Owned)
    requires fit.upTo <= MAX_LEAVES < |chain|
    requires owned == ScanAll(k, SyncSpec(k, ScanAll(k, NOTHING, chain[..fit.upTo]), [], fit.nullifiers),
                              chain[fit.upTo..MAX_LEAVES]).owned
    ensures (exists c :: Flagged(owned, c)) <==> FlagOutlivesFit(k, chain, fit)
  {
    hide ScanOne, SyncSpec, Flagged, HexOf, SpentBy, LastOwned;
    if FlagOutlivesFit(k, chain, fit) {
      var i :| 0 <= i < fit.upTo && i < |chain| && SpentBy(k, chain[i], fit.nullifiers)
               && LastOwned(k, chain[..Room(|chain|)], HexOf(chain[i].commitment)) == Some(i);
      FlagLeft(k, chain, fit, HexOf(chain[i].commitment));
    }
    if c :| Flagged(owned, c) {
      FlagLeft(k, chain, fit, c);
      var i := LastOwned(k, chain[..MAX_LEAVES], c).value;
      assert chain[..MAX_LEAVES][i] == chain[i] && HexOf(chain[i].commitment) == c;
    }
  }

  lemma FlagLeft(k: Keys, chain: seq<PublishedNote>, fit: Chunk, c: string)
    requires fit.upTo <= MAX_LEAVES < |chain|
    ensures var early := SyncSpec(k, ScanAll(k, NOTHING, chain[..fit.upTo]), [], fit.nullifiers);
            var i := LastOwned(k, chain[..MAX_LEAVES], c);
            Flagged(ScanAll(k, early, chain[fit.upTo..MAX_LEAVES]).owned, c)
            <==> i.Some? && i.value < fit.upTo && SpentBy(k, chain[i.value], fit.nullifiers)
  {
    hide ScanAll, Get, HexOf, LastOwned, Refresh, RefreshOne, SyncSpec;
    var a, b := chain[..fit.upTo], chain[fit.upTo..MAX_LEAVES];
    var scanned := ScanAll(k, NOTHING, a);
    JustRefresh(k, scanned, fit.nullifiers);
    ScanOwned(k, SyncSpec(k, scanned, [], fit.nullifiers), b, c);
    ScanOwned(k, NOTHING, a, c);
    RefreshedUnder(k, scanned.owned, fit.nullifiers, c);
    EmptyMap();
    LastOwnedSplit(k, a, b, c);
    assert a + b == chain[..MAX_LEAVES];
  }

  // A run whose flags lag: the first note is ours and already spent when it is scanned; the chain outgrows the tree by
  // one.

  function LoneKeys(payload: NotePayload): Keys
  {
    Keys((b: Bytes) => if b == [1] then Some(payload) else None, (n: OwnedNote) => Some(ZERO_HASH))
  }

  function LoneChain(n: nat): (chain: seq<PublishedNote>)
    ensures |chain| == n
    ensures forall i :: 0 <= i < n ==> chain[i] == PublishedNote(ZERO_HASH, i, if i == 0 then [1] else [])
  {
    if n == 0 then [] else LoneChain(n - 1) + [PublishedNote(ZERO_HASH, n - 1, if n == 1 then [1] else [])]
  }

  lemma {:induction false} LoneNote(payload: NotePayload, chain: seq<PublishedNote>, n: nat)
    requires 1 <= n <= |chain| && chain == LoneChain(|chain|)
    ensures LastOwned(LoneKeys(payload), chain[..n], HexOf(ZERO_HASH)) == Some(0)
  {
    hide HexOf, LoneChain;
    if n > 1 {
      LoneNote(payload, chain, n - 1);
      assert chain[..n][..n - 1] == chain[..n - 1];
    }
  }

  lemma FlagsCanLag(payload: NotePayload)
    ensures var k, chain, spent := LoneKeys(payload), LoneChain(MAX_LEAVES + 1), {ZERO_HASH};
            var chunks := [Chunk(1, spent), Chunk(MAX_LEAVES + 1, spent)];
            Growing(chain, chunks) && SyncRun(k, chain, chunks) != SyncStep(k, NOTHING, chain, spent)
  {
    hide HexOf, LoneChain, LastOwned, SyncRun, SyncStep, Refresh;
    var k, chain, spent := LoneKeys(payload), LoneChain(MAX_LEAVES + 1), {ZERO_HASH};
    var chunks := [Chunk(1, spent), Chunk(MAX_LEAVES + 1, spent)];
    ChunkIndependent(k, chain, chunks, spent);
    assert chain[..MAX_LEAVES + 1] == chain;
    assert chunks[..1] == [chunks[0]];
    LoneNote(payload, chain, MAX_LEAVES);
    assert SpentBy(k, chain[0], spent);
  }

  lemma JustRefresh(k: Keys, s: Scan, nullifiers: set<Bytes32>)
    ensures SyncSpec(k, s, [], nullifiers) == s.(owned := Refresh(k, s.owned, nullifiers))
  {
    hide Refresh, ScanOne;
  }

  lemma FullSync(k: Keys, chain: seq<PublishedNote>, chunk: Chunk)
    requires chunk.upTo <= |chain|
    ensures var whole, full := ScanAll(k, NOTHING, chain[..Room(chunk.upTo)]),
            SyncStep(k, NOTHING, chain[..chunk.upTo], chunk.nullifiers);
            full == if chunk.upTo <= MAX_LEAVES then whole.(owned := Refresh(k, whole.owned, chunk.nullifiers))
                else whole
  {
    hide Refresh, ScanAll;
    assert chain[..chunk.upTo][..Room(chunk.upTo)] == chain[..Room(chunk.upTo)];
  }

  /** A run is a scan of all the chain the tree has room for, refreshed sooner or later. */
  lemma {:induction false} RunIsFullScan(k: Keys, chain: seq<PublishedNote>, chunks: seq<Chunk>, late: set<Bytes32>)
    requires Growing(chain, chunks) && chunks != []
    requires chunks[|chunks| - 1].nullifiers <= late
    ensures var last, run := chunks[|chunks| - 1], SyncRun(k, chain, chunks);
            var whole := ScanAll(k, NOTHING, chain[..Room(last.upTo)]);
            && SyncSpec(k, run, [], late) == SyncSpec(k, whole, [], late)
            && (last.upTo <= MAX_LEAVES ==> run == SyncSpec(k, whole, [], last.nullifiers))
  {
    hide ScanAll, Refresh, Growing, SyncRun, SyncSpec, SyncStep, FetchFrom;
    var n := |chunks| - 1;
    var last := chunks[n];
    PrefixGrows(chain, chunks);
    LastSync(k, chain, chunks);
    if n == 0 {
      assert chunks[..0] == [];
      NothingScanned(k, chain);
      NextRun(k, chain, NOTHING, 0, last, late);
    } else {
      var prev, run := chunks[n - 1], SyncRun(k, chain, chunks[..n]);
      RunIsFullScan(k, chain, chunks[..n], last.nullifiers);
      RunIsFullScan(k, chain, chunks[..n], late);
      NextRun(k, chain, run, prev.upTo, last, late);
    }
  }

  lemma LastSync(k: Keys, chain: seq<PublishedNote>, chunks: seq<Chunk>)
    requires Growing(chain, chunks) && chunks != [] && Growing(chain, chunks[..|chunks| - 1])
    ensures var n := |chunks| - 1;
            var before := SyncRun(k, chain, chunks[..n]);
            SyncRun(k, chain, chunks)
            == SyncStep(k, before, FetchFrom(chain, chunks[n].upTo, before.nextIndex), chunks[n].nullifiers)
  {
    hide SyncStep, FetchFrom;
  }

  lemma NothingScanned(k: Keys, chain: seq<PublishedNote>)
    ensures ScanAll(k, NOTHING, chain[..0]) == NOTHING
    ensures Growing(chain, []) ==> SyncRun(k, chain, []) == NOTHING
  {}

  lemma PrefixGrows(chain: seq<PublishedNote>, chunks: seq<Chunk>)
    requires Growing(chain, chunks) && chunks != []
    ensures var n := |chunks| - 1;
            Growing(chain, chunks[..n])
                && (n > 0 ==> chunks[n - 1].upTo <= chunks[n].upTo && chunks[n - 1].nullifiers <= chunks[n].nullifiers)
    ensures chunks[|chunks| - 1].upTo <= |chain| && forall i :: 0 <= i < |chain| ==> chain[i].leafIndex == i
  {}

  /** The next sync of a run that has scanned the chain up to `from`. */
  lemma NextRun(k: Keys, chain: seq<PublishedNote>, run: Scan, from: nat, chunk: Chunk, late: set<Bytes32>)
    requires from <= chunk.upTo <= |chain| && chunk.nullifiers <= late
    requires forall i :: 0 <= i < |chain| ==> chain[i].leafIndex == i
    requires SyncSpec(k, run, [], late) == SyncSpec(k, ScanAll(k, NOTHING, chain[..Room(from)]), [], late)
    requires SyncSpec(k, run, [], chunk.nullifiers)
             == SyncSpec(k, ScanAll(k, NOTHING, chain[..Room(from)]), [], chunk.nullifiers)
    ensures |run.leaves| == run.nextIndex == Room(from)
    ensures var next := SyncStep(k, run, FetchFrom(chain, chunk.upTo, run.nextIndex), chunk.nullifiers);
            var whole := ScanAll(k, NOTHING, chain[..Room(chunk.upTo)]);
            && SyncSpec(k, next, [], late) == SyncSpec(k, whole, [], late)
            && (chunk.upTo <= MAX_LEAVES ==> next == SyncSpec(k, whole, [], chunk.nullifiers))
  {
    hide ScanOne, Refresh;
    var m, to := Room(from), Room(chunk.upTo);
    NextIndexCounts(k, chain, m);
    assert chain[m..chunk.upTo][..to - m] == chain[m..to];
    assert chunk.upTo <= MAX_LEAVES ==> chain[m..chunk.upTo] == chain[m..to];
    ScanOnward(k, chain, run, m, to, late);
    ScanOnward(k, chain, run, m, to, chunk.nullifiers);
    RefreshTwice(k, ScanAll(k, run, chain[m..to]).owned, chunk.nullifiers, late);
  }

  lemma ScanOnward(k: Keys, chain: seq<PublishedNote>, run: Scan, m: nat, to: nat, late: set<Bytes32>)
    requires m <= to <= |chain|
    requires SyncSpec(k, run, [], late) == SyncSpec(k, ScanAll(k, NOTHING, chain[..m]), [], late)
    ensures SyncSpec(k, run, chain[m..to], late) == SyncSpec(k, ScanAll(k, NOTHING, chain[..to]), [], late)
  {
    hide ScanOne, Refresh;
    var whole := ScanAll(k, NOTHING, chain[..m]);
    ScanAfterRefresh(k, run, chain[m..to], late, late);
    ScanAfterRefresh(k, whole, chain[m..to], late, late);
    ScanSplit(k, NOTHING, chain[..m], chain[m..to]);
    assert chain[..m] + chain[m..to] == chain[..to];
  }

  // ---- membership proofs of owned notes ----

  /** Every owned note sits where its entry says. */
  ghost predicate Located(s: Scan)
  {
    forall c :: Get(s.owned, c).Some? ==>
      Get(s.owned, c).value.leafIndex < |s.leaves| && HexOf(s.leaves[Get(s.owned, c).value.leafIndex]) == c
  }

  lemma {:induction false} ScanLocates(k: Keys, chain: seq<PublishedNote>, n: nat)
    requires n <= |chain| && forall i :: 0 <= i < |chain| ==> chain[i].leafIndex == i
    ensures Located(ScanAll(k, NOTHING, chain[..n]))
  {
    hide HexOf, Get, Set;
    if n == 0 {
      EmptyMap();
    } else {
      ScanLocates(k, chain, n - 1);
      NextIndexCounts(k, chain, n - 1);
      assert chain[..n][..n - 1] == chain[..n - 1];
      var s, note := ScanAll(k, NOTHING, chain[..n - 1]), chain[n - 1];
      var payload := k.decrypt(note.payload);
      forall c ensures var t := ScanOne(k, s, note);
                       Get(t.owned, c).Some? ==> && Get(t.owned, c).value.leafIndex < |t.leaves|
                                                 && HexOf(t.leaves[Get(t.owned, c).value.leafIndex]) == c
      {
        if payload.Some? { GetSet(s.owned, HexOf(note.commitment), OwnedNote(payload.value, note.leafIndex, false),
                                  c); }
      }
    }
  }

  lemma EmptyMap()
    ensures forall c: string :: Get<string, OwnedNote>([], c).None?
  {}

  lemma {:induction false} RefreshKeepsPlace(k: Keys, owned: Owned, nullifiers: set<Bytes32>, c: string)
    ensures Get(Refresh(k, owned, nullifiers), c).Some? <==> Get(owned, c).Some?
    ensures Get(owned, c).Some? ==>
              Get(Refresh(k, owned, nullifiers), c) == Some(RefreshOne(k, Get(owned, c).value, nullifiers))
  {
    if owned != [] && owned[0].key != c { RefreshKeepsPlace(k, owned[1..], nullifiers, c); }
  }

  /** After any syncs, even of more than the tree has room for, an owned commitment is the leaf at its position. */
  lemma OwnedIsLeaf(k: Keys, chain: seq<PublishedNote>, chunks: seq<Chunk>, c: Bytes32)
    requires Growing(chain, chunks) && Get(SyncRun(k, chain, chunks).owned, HexOf(c)).Some?
    ensures var s := SyncRun(k, chain, chunks);
            var i := Get(s.owned, HexOf(c)).value.leafIndex;
            i < |s.leaves| && s.leaves[i] == c
  {
    hide ScanAll, Refresh, HexOf, RefreshOne, Growing, SyncStep, SyncSpec, SyncRun, Get;
    if chunks == [] {
      NothingOwned(k, chain, HexOf(c));
    } else {
      var last, s := chunks[|chunks| - 1], SyncRun(k, chain, chunks);
      PrefixGrows(chain, chunks);
      RunIsFullScan(k, chain, chunks, last.nullifiers);
      ScanLocates(k, chain, Room(last.upTo));
      var whole := ScanAll(k, NOTHING, chain[..Room(last.upTo)]);
      JustRefresh(k, s, last.nullifiers);
      JustRefresh(k, whole, last.nullifiers);
      RefreshedAlike(k, s.owned, whole.owned, last.nullifiers, HexOf(c));
      BytesOfHexOf(c);
      BytesOfHexOf(s.leaves[Get(s.owned, HexOf(c)).value.leafIndex]);
    }
  }

  lemma NothingOwned(k: Keys, chain: seq<PublishedNote>, c: string)
    requires Growing(chain, [])
    ensures Get(SyncRun(k, chain, []).owned, c).None?
  {
    EmptyMap();
  }

  /** So the proof handed out for it is accepted, and is a proof of that commitment at that index. */
  lemma OwnedProofVerifies(k: Keys, p: Poseidon2, chain: seq<PublishedNote>, chunks: seq<Chunk>, c: Bytes32)
    requires Growing(chain, chunks) && Get(SyncRun(k, chain, chunks).owned, HexOf(c)).Some?
    ensures var s := SyncRun(k, chain, chunks);
            var i := Get(s.owned, HexOf(c)).value.leafIndex;
            && i < |s.leaves| && s.leaves[i] == c
            && Accepts(p, ProofOf(p, s.leaves, TREE_DEPTH, i)) && Decode(PathBits(i, TREE_DEPTH)) == i
  {
    hide Accepts, HexOf, PathBits, Decode, TreeRoot, SyncRun, Get, Growing, PathSiblings;
    OwnedIsLeaf(k, chain, chunks, c);
    var s := SyncRun(k, chain, chunks);
    var i := Get(s.owned, HexOf(c)).value.leafIndex;
    SlotInTree(i, TREE_DEPTH);
    ProofComplete(p, s.leaves, TREE_DEPTH, i);
  }

  /** Maps that refresh to the same map hold the same notes at the same positions. */
  lemma RefreshedAlike(k: Keys, a: Owned, b: Owned, nullifiers: set<Bytes32>, c: string)
    requires Refresh(k, a, nullifiers) == Refresh(k, b, nullifiers) && Get(a, c).Some?
    ensures Get(b, c).Some? && Get(a, c).value.leafIndex == Get(b, c).value.leafIndex
  {
    hide Refresh, Get, RefreshOne;
    RefreshKeepsPlace(k, a, nullifiers, c);
    RefreshKeepsPlace(k, b, nullifiers, c);
    RefreshKeepsIndex(k, Get(a, c).value, nullifiers);
    RefreshKeepsIndex(k, Get(b, c).value, nullifiers);
  }

  lemma RefreshKeepsIndex(k: Keys, n: OwnedNote, nullifiers: set<Bytes32>)
    ensures RefreshOne(k, n, nullifiers).leafIndex == n.leafIndex
  {}

  // ---- selection ----

  function Amount(n: OwnedNote): int { n.payload.amount }

  function Gain(n: OwnedNote): int { if n.payload.amount > 0 then n.payload.amount else 0 }

  function Sum(worth: OwnedNote -> int, notes: seq<OwnedNote>): int
  {
    if notes == [] then 0 else Sum(worth, notes[..|notes| - 1]) + worth(notes[|notes| - 1])
  }

  function Total(notes: seq<OwnedNote>): int { Sum(Amount, notes) }

  /** What the notes of positive amount are worth together. */
  function PositiveTotal(notes: seq<OwnedNote>): int { Sum(Gain, notes) }

  ghost predicate Descending(notes: seq<OwnedNote>)
  {
    forall i, j :: 0 <= i <= j < |notes| ==> notes[i].payload.amount >= notes[j].payload.amount
  }

  lemma {:induction false} SumConcat(worth: OwnedNote -> int, a: seq<OwnedNote>, b: seq<OwnedNote>)
    ensures Sum(worth, a + b) == Sum(worth, a) + Sum(worth, b)
  {
    if b == [] {
      assert a + b == a;
    } else {
      SumConcat(worth, a, b[..|b| - 1]);
      assert (a + b)[..|a + b| - 1] == a + b[..|b| - 1];
    }
  }

  lemma SumOne(worth: OwnedNote -> int, n: OwnedNote)
    ensures Sum(worth, [n]) == worth(n)
  {
    assert [n][..0] == [];
  }

  lemma Without(worth: OwnedNote -> int, t: seq<OwnedNote>, i: nat)
    requires i < |t|
    ensures var rest := t[..i] + t[i + 1..];
            multiset(t) == multiset{t[i]} + multiset(rest) && Sum(worth, t) == worth(t[i]) + Sum(worth, rest)
  {
    assert t == t[..i] + [t[i]] + t[i + 1..];
    SumOne(worth, t[i]);
    SumConcat(worth, t[..i] + [t[i]], t[i + 1..]);
    SumConcat(worth, t[..i], [t[i]]);
    SumConcat(worth, t[..i], t[i + 1..]);
  }

  lemma WithoutFirst(worth: OwnedNote -> int, s: seq<OwnedNote>)
    requires s != []
    ensures multiset(s) == multiset{s[0]} + multiset(s[1..]) && Sum(worth, s) == worth(s[0]) + Sum(worth, s[1..])
  {
    Without(worth, s, 0);
    assert s[..0] + s[1..] == s[1..];
  }

  lemma Cancel(x: OwnedNote, a: multiset<OwnedNote>, b: multiset<OwnedNote>)
    ensures multiset{x} + a <= multiset{x} + b ==> a <= b
    ensures multiset{x} + a == multiset{x} + b ==> a == b
  {
    if multiset{x} + a <= multiset{x} + b {
      forall y ensures a[y] <= b[y] { assert (multiset{x} + a)[y] <= (multiset{x} + b)[y]; }
    }
    if multiset{x} + a == multiset{x} + b {
      forall y ensures a[y] == b[y] { assert (multiset{x} + a)[y] == (multiset{x} + b)[y]; }
    }
  }

  lemma {:induction false} SumOfPermutation(worth: OwnedNote -> int, s: seq<OwnedNote>, t: seq<OwnedNote>)
    requires multiset(s) == multiset(t)
    ensures Sum(worth, s) == Sum(worth, t)
  {
    if s == [] {
      assert |multiset(t)| == 0;
    } else {
      assert s[0] in multiset(s);
      var i :| 0 <= i < |t| && t[i] == s[0];
      var rest := t[..i] + t[i + 1..];
      WithoutFirst(worth, s);
      Without(worth, t, i);
      Cancel(s[0], multiset(s[1..]), multiset(rest));
      SumOfPermutation(worth, s[1..], rest);
    }
  }

  /** Shifting a window of a descending list to the right does not raise its total. */
  lemma {:induction false} ShiftLowers(s: seq<OwnedNote>, n: nat)
    requires Descending(s) && n < |s|
    ensures Total(s[1..][..n]) <= Total(s[..n])
  {
    if n > 0 {
      ShiftLowers(s, n - 1);
      assert s[1..][..n][..n - 1] == s[1..][..n - 1] && s[..n][..n - 1] == s[..n - 1];
    }
  }

  /** The first notes of a descending list are worth at least as much as any equally many of its notes. */
  lemma {:induction false} LargestFirst(s: seq<OwnedNote>, t: seq<OwnedNote>)
    requires Descending(s) && multiset(t) <= multiset(s)
    ensures |t| <= |s| && Total(t) <= Total(s[..|t|])
    decreases s, 1
  {
    hide Sum;
    if s == [] {
      assert |multiset(t)| == 0 && s[..|t|] == t;
    } else {
      WithoutFirst(Amount, s);
      if s[0] in t { LargestTaken(s, t); } else { LargestSkipped(s, t); }
    }
  }

  lemma {:induction false} LargestTaken(s: seq<OwnedNote>, t: seq<OwnedNote>)
    requires s != [] && Descending(s) && multiset(t) <= multiset(s) && s[0] in t
    ensures |t| <= |s| && Total(t) <= Total(s[..|t|])
    decreases s, 0
  {
    hide Sum;
    var x, rest := s[0], s[1..];
    var i :| 0 <= i < |t| && t[i] == x;
    var t' := t[..i] + t[i + 1..];
    Without(Amount, t, i);
    WithoutFirst(Amount, s);
    Cancel(x, multiset(t'), multiset(rest));
    LargestFirst(rest, t');
    assert |t'| == |t| - 1;
    WithoutFirst(Amount, s[..|t|]);
    assert s[..|t|][1..] == rest[..|t'|];
  }

  lemma {:induction false} LargestSkipped(s: seq<OwnedNote>, t: seq<OwnedNote>)
    requires s != [] && Descending(s) && multiset(t) <= multiset(s) && s[0] !in t
    ensures |t| <= |s| && Total(t) <= Total(s[..|t|])
    decreases s, 0
  {
    hide Sum;
    WithoutFirst(Amount, s);
    forall y ensures multiset(t)[y] <= multiset(s[1..])[y] {
      if y == s[0] { assert y !in multiset(t); }
    }
    LargestFirst(s[1..], t);
    ShiftLowers(s, |t|);
  }

  // ---- what notes of negative amount do to a total ----

  /** The total is what the positive notes are worth exactly when no note is negative; otherwise it is less. */
  lemma {:induction false} TotalIsPositiveIffNoDebt(notes: seq<OwnedNote>)
    ensures Total(notes) <= PositiveTotal(notes)
    ensures Total(notes) == PositiveTotal(notes) <==> forall i :: 0 <= i < |notes| ==> notes[i].payload.amount >= 0
  {
    if notes != [] {
      var n := |notes| - 1;
      TotalIsPositiveIffNoDebt(notes[..n]);
      assert forall i :: 0 <= i < n ==> notes[..n][i] == notes[i];
    }
  }

  lemma {:induction false} GainOfPrefix(s: seq<OwnedNote>, n: nat)
    requires n <= |s|
    ensures PositiveTotal(s[..n]) <= PositiveTotal(s)
    decreases |s|
  {
    if n == |s| {
      assert s[..n] == s;
    } else {
      GainOfPrefix(s[..|s| - 1], n);
      assert s[..|s| - 1][..n] == s[..n];
    }
  }

  /** A descending list reaches what its positive notes are worth on the way. */
  lemma {:induction false} PositivePrefix(s: seq<OwnedNote>) returns (j: nat)
    requires Descending(s)
    ensures j <= |s| && Total(s[..j]) == PositiveTotal(s)
  {
    j := |s|;
    assert s[..j] == s;
    if s != [] {
      if s[|s| - 1].payload.amount >= 0 {
        TotalIsPositiveIffNoDebt(s);
      } else {
        j := PositivePrefix(s[..|s| - 1]);
        assert s[..|s| - 1][..j] == s[..j];
      }
    }
  }

  /** Largest first; the order of equal amounts is not specified by the source's comparison. */
  method SortDescending(notes: seq<OwnedNote>) returns (r: seq<OwnedNote>)
    ensures Descending(r) && multiset(r) == multiset(notes)
  {
    r := [];
    for i := 0 to |notes|
      invariant Descending(r) && multiset(r) == multiset(notes[..i])
    {
      assert notes[..i + 1] == notes[..i] + [notes[i]];
      r := InsertDescending(r, notes[i]);
    }
    assert notes[..|notes|] == notes;
  }

  method InsertDescending(s: seq<OwnedNote>, n: OwnedNote) returns (r: seq<OwnedNote>)
    requires Descending(s)
    ensures Descending(r) && multiset(r) == multiset(s) + multiset{n}
  {
    var j := 0;
    while j < |s| && s[j].payload.amount > n.payload.amount
      invariant 0 <= j <= |s| && forall k :: 0 <= k < j ==> s[k].payload.amount > n.payload.amount
    {
      j := j + 1;
    }
    r := s[..j] + [n] + s[j..];
    InsertedInOrder(s, n, j);
    hide Descending;
    assert s == s[..j] + s[j..];
  }

  lemma InsertedInOrder(s: seq<OwnedNote>, n: OwnedNote, j: nat)
    requires Descending(s) && j <= |s|
    requires forall k :: 0 <= k < j ==> s[k].payload.amount > n.payload.amount
    requires j < |s| ==> s[j].payload.amount <= n.payload.amount
    ensures Descending(s[..j] + [n] + s[j..])
  {
    var r := s[..j] + [n] + s[j..];
    assert forall i :: 0 <= i < |r| ==> r[i] == if i < j then s[i] else if i == j then n else s[i - 1];
  }

  /** Pick notes covering `amount`. It fails exactly when the positive ones together do not; otherwise the
      result is made of them, covers the amount, and no smaller selection does. */
  method Select(notes: seq<OwnedNote>, amount: int) returns (r: Result<seq<OwnedNote>, ScanError>)
    ensures r.Err? <==> amount > 0 && PositiveTotal(notes) < amount
    ensures r.Ok? ==> multiset(r.value) <= multiset(notes) && Total(r.value) >= amount
    ensures r.Ok? ==> forall t: seq<OwnedNote> | multiset(t) <= multiset(notes) && |t| < |r.value| :: Total(t) < amount
  {
    hide Descending;
    var available := SortDescending(notes);
    var chosen: seq<OwnedNote>, total := [], 0;
    var k := 0;
    while k < |available| && total < amount
      invariant 0 <= k <= |available| && chosen == available[..k] && total == Total(chosen)
      invariant forall j :: 0 <= j < k ==> Total(available[..j]) < amount
    {
      assert available[..k + 1][..k] == available[..k];
      chosen := chosen + [available[k]];
      total := total + available[k].payload.amount;
      k := k + 1;
    }
    if total < amount {
      NotCovered(available, notes, amount);
      return Err(InsufficientBalance);
    }
    Covered(available, notes, k, amount);
    r := Ok(chosen);
  }

  lemma NotCovered(available: seq<OwnedNote>, notes: seq<OwnedNote>, amount: int)
    requires Descending(available) && multiset(available) == multiset(notes)
    requires forall j :: 0 <= j <= |available| ==> Total(available[..j]) < amount
    ensures amount > 0 && PositiveTotal(notes) < amount
  {
    hide Descending, Sum;
    var _ := PositivePrefix(available);
    SumOfPermutation(Gain, available, notes);
    assert Total(available[..0]) == 0 by { NothingIsWorthNothing(); }
  }

  lemma NothingIsWorthNothing()
    ensures Total([]) == 0
  {}

  lemma Covered(available: seq<OwnedNote>, notes: seq<OwnedNote>, k: nat, amount: int)
    requires Descending(available) && multiset(available) == multiset(notes) && k <= |available|
    requires Total(available[..k]) >= amount && forall j :: 0 <= j < k ==> Total(available[..j]) < amount
    ensures multiset(available[..k]) <= multiset(notes) && PositiveTotal(notes) >= amount
    ensures forall t: seq<OwnedNote> | multiset(t) <= multiset(notes) && |t| < k :: Total(t) < amount
  {
    hide Sum, Descending;
    assert available == available[..k] + available[k..];
    SumOfPermutation(Gain, available, notes);
    TotalIsPositiveIffNoDebt(available[..k]);
    GainOfPrefix(available, k);
    forall t: seq<OwnedNote> | multiset(t) <= multiset(notes) && |t| < k ensures Total(t) < amount {
      LargestFirst(available, t);
    }
  }

  /** A selection can succeed where the balance falls short: with notes worth 10 and -5, the balance is 5,
      and 8 is covered. */
  lemma DebtIsIgnored(n: OwnedNote)
    ensures var notes := [n.(payload := n.payload.(amount := 10)), n.(payload := n.payload.(amount := -5))];
            Total(notes) == 5 < 8 <= PositiveTotal(notes)
  {
    var a, b := n.(payload := n.payload.(amount := 10)), n.(payload := n.payload.(amount := -5));
    assert [a, b] == [a] + [b];
    SumConcat(Amount, [a], [b]);
    SumConcat(Gain, [a], [b]);
    SumOne(Amount, a);
    SumOne(Amount, b);
    SumOne(Gain, a);
    SumOne(Gain, b);
  }
}
