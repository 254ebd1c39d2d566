/**
  Tables: ids to blobs, src/btree.c:474-506, and whole runs of them.
*/
module Table {
  import opened Common
  import opened Varint
  import Blob
  import opened Cells
  import opened TreeInvariant
  import opened TreeWalk
  import opened TreeFate
  import opened TreeSearch
  import opened PageCount
  import opened BTree

  /** An id in the window of the tree, and field widths of the source. */
  ghost predicate Fits(t: BTree, id: nat, blob: seq<Byte>) {
    InWindow(t.cfg.base, id) && Entry(id, blob).Fits()
  }

  /** `btree_table_insert`, with `varint_put` as meant; see `Varint.WrittenRoundTripIff`. */
  method Insert(t: BTree, id: nat, blob: seq<Byte>) returns (r: Result)
    requires t.Valid() && Fits(t, id, blob) && t.latches == map[]
    modifies t, t.repr
    ensures fresh(t.repr - old(t.repr))
    ensures old(t.root in t.nodes && t.root in t.fences && t.nodes[t.root].Typed())
    ensures r == ResultOf(old(t.Foreseen(id, blob)), old(t.available))
    ensures !(r == NoMem && old(t.FullAtRoot(id, blob) && t.available == 1)) ==>
              t.Outcome(r, old(t.contents), id, blob, old(t.Foreseen(id, blob)).end)
    ensures r == NoMem && old(t.FullAtRoot(id, blob) && t.available == 1) ==>
              && t.root == old(t.root) && t.fences == old(t.fences)
              && t.TornOff(old(t.nodes), map[]) && t.TornLooks(old(t.nodes), old(t.contents))
    ensures r == Exists ==> t.latches == if t.fix.cleanup then map[] else map[t.entered := -1]
    ensures r == Ok ==> t.latches == if t.fix.cleanup || !old(t.failed) then map[] else map[t.entered := -1]
    ensures t.Capacity() == old(t.Capacity())
    ensures r == Ok || r == Exists ==> t.available == old(t.available) - old(t.Foreseen(id, blob)).pages
  {
    hide TreeOk, Represents, Varint.Encode, Blob.Encode, FromRoot, Full, Answers, Duplicated, BTree.PagesValid,
         BTree.TornOff, BTree.TornLooks, Searchable, Shaped;
    var key, value := RowBytes(id, blob);
    r := t.Insert(id, key, value, blob);
  }

  method RowBytes(id: nat, blob: seq<Byte>) returns (key: seq<Byte>, value: seq<Byte>)
    requires Entry(id, blob).Fits()
    ensures key == Varint.Encode(id) && value == Blob.Encode(blob)
  {
    hide Varint.Encode, Blob.Encode;
    var keyBuf := new Byte[9];
    var keyLen := Varint.PutRepaired(keyBuf, 0, id);
    var n := Blob.PutLen(blob);
    var valueBuf := new Byte[n];
    var valueLen := Blob.Put(valueBuf, 0, blob);
    key, value := keyBuf[..keyLen], valueBuf[..valueLen];
  }

  /** `btree_table_lookup`: the search compares keys by parsing their bytes. */
  method Lookup(t: BTree, id: nat) returns (r: Option<seq<Byte>>)
    requires t.Valid() && InWindow(t.cfg.base, id) && id < U64 && t.latches == map[]
    modifies t`latches, t`failed
    ensures t.Valid() && t.latches == map[]
    ensures r == if id in t.contents then Some(t.contents[id]) else None
  {
    hide TreeOk, Represents, Varint.Encode, BTree.PagesValid, Shaped;
    var key := ThroughBuffer(id);
    r := t.Lookup(key);
  }

  /** The same in pages that are no tree any more. */
  method LookupIn(t: BTree, id: nat, ghost hops: nat) returns (r: Option<seq<Byte>>)
    requires t.PagesValid() && Searchable(t.cfg, t.nodes) && InWindow(t.cfg.base, id) && id < U64
    requires Answered(Search(t.nodes, t.latches.Keys, t.root, id, hops))
    modifies t`latches, t`failed
    ensures t.PagesValid() && t.latches == old(t.latches)
    ensures r == BlobOf(old(Search(t.nodes, t.latches.Keys, t.root, id, hops)))
  {
    hide Varint.Encode, BTree.PagesValid, Searchable, Search;
    var key := ThroughBuffer(id);
    r := t.LookupIn(key, hops);
  }

  method ThroughBuffer(id: nat) returns (key: nat)
    requires id < U64
    ensures key == id
  {
    hide Varint.Encode;
    var keyBuf := new Byte[9];
    var keyLen := Varint.PutRepaired(keyBuf, 0, id);
    Varint.RoundTrip(keyBuf[..], 0, id);
    var n;
    n, key := Varint.Get(keyBuf, 0);
  }

  // ------------------------------------------------------------------- runs

  datatype Op = Put(id: nat, blob: seq<Byte>) | Get(id: nat)
  datatype Reply = PutDone(r: Result) | GetDone(blob: Option<seq<Byte>>)

  /** A run comes to its end; or no page can be made; or it breaks: the call does not
      return, or leaves a page latched or unfixed twice; or an id was added twice. */
  datatype Stop = Done | NoPage | Breaks | Doubles

  predicate Puts(op: Op, id: nat) {
    op.Put? && op.id == id
  }

  /** The rows after a run: each id with the blob of its first insert. */
  function Rows(ops: seq<Op>): map<nat, seq<Byte>> {
    if ops == [] then map[]
    else
      var m, op := Rows(ops[..|ops| - 1]), ops[|ops| - 1];
      if op.Put? && op.id !in m then m[op.id := op.blob] else m
  }

  /** What one more operation answers. */
  function ReplyOf(m: map<nat, seq<Byte>>, op: Op): Reply {
    match op
    case Put(id, blob) => PutDone(if id in m then Exists else Ok)
    case Get(id) => GetDone(if id in m then Some(m[id]) else None)
  }

  /** An id has a row exactly if it was inserted, and the row is that of the first
      insert of the id. */
  lemma {:induction false} RowsAreFirstPuts(ops: seq<Op>, id: nat)
    ensures id in Rows(ops) <==> exists i :: 0 <= i < |ops| && Puts(ops[i], id)
    ensures forall i :: 0 <= i < |ops| && Puts(ops[i], id) && (forall j :: 0 <= j < i ==> !Puts(ops[j], id)) ==>
                          id in Rows(ops) && Rows(ops)[id] == ops[i].blob
  {
    if ops != [] {
      var n := |ops| - 1;
      RowsAreFirstPuts(ops[..n], id);
      assert forall i :: 0 <= i < n ==> ops[..n][i] == ops[i];
      if Puts(ops[n], id) {
        assert id in Rows(ops);
      }
      if id in Rows(ops[..n]) {
        var i :| 0 <= i < n && Puts(ops[..n][i], id);
        assert Puts(ops[i], id);
      }
    }
  }

  /** No id is inserted twice. */
  predicate OncePerId(ops: seq<Op>) {
    forall i, j :: 0 <= i < j < |ops| && ops[j].Put? ==> !Puts(ops[i], ops[j].id)
  }

  ghost predicate Allowed(t: BTree, op: Op) {
    match op
    case Put(id, blob) => Fits(t, id, blob)
    case Get(id) => id < U64 && InWindow(t.cfg.base, id)
  }

  lemma RowsStep(ops: seq<Op>, n: nat)
    requires n <= |ops|
    ensures n == 0 ==> Rows(ops[..n]) == map[]
    ensures n < |ops| ==>
              var m, op := Rows(ops[..n]), ops[n];
              Rows(ops[..n + 1]) == if op.Put? && op.id !in m then m[op.id := op.blob] else m
  {
    if n < |ops| {
      assert ops[..n + 1][..n] == ops[..n];
    }
  }

  /** Rows whose costs are close enough for this page size, and guards as meant. */
  ghost predicate Even(t: BTree, ops: seq<Op>, b: Costs) {
    && t.fix.guard && Roomy(t.cfg.space, b) && Roomy(t.cfg.space, INNER_COSTS)
    && forall op :: op in ops && op.Put? ==> RowWithin(op.id, op.blob, b)
  }

  predicate RowWithin(id: nat, blob: seq<Byte>, b: Costs) {
    Entry(id, blob).Fits() && b.min <= Cost(Entry(id, blob)) <= b.max
  }

  lemma RowsWithinBounds(nodes: Pages, m: map<nat, seq<Byte>>, b: Costs)
    requires Represents(nodes, m) && (forall p :: p in nodes ==> nodes[p].Typed())
    requires forall k :: k in m ==> RowWithin(k, m[k], b)
    ensures RowsWithin(nodes, b)
  {
    hide Payload;
    forall p, c | p in nodes && nodes[p].leaf && c in nodes[p].cells ensures c.Fits() && b.min <= Cost(c) <= b.max {
      assert Stored(nodes, c);
      assert RowWithin(c.key, m[c.key], b);
    }
  }

  lemma {:induction false} RowsCost(ops: seq<Op>, n: nat, b: Costs)
    requires n <= |ops| && forall op :: op in ops && op.Put? ==> RowWithin(op.id, op.blob, b)
    ensures forall k :: k in Rows(ops[..n]) ==> RowWithin(k, Rows(ops[..n])[k], b)
  {
    hide RowWithin;
    RowsStep(ops, n);
    if n > 0 {
      RowsCost(ops, n - 1, b);
      RowsStep(ops, n - 1);
      assert ops[n - 1] in ops;
    }
  }

  /** What the next insert of a run can come to. */
  lemma PutFate(t: BTree, ops: seq<Op>, n: nat, b: Costs)
    requires n < |ops| && ops[n].Put? && t.Valid() && t.contents == Rows(ops[..n])
    requires Fits(t, ops[n].id, ops[n].blob)
    ensures t.root in t.nodes && t.root in t.fences && t.nodes[t.root].Typed()
    ensures var f := t.Foreseen(ops[n].id, ops[n].blob);
            && (f.end == Fresh ==> ops[n].id !in t.contents) && (f.end == Found ==> ops[n].id in t.contents)
            && (f.end == Twice ==> ops[n].id in t.contents && !t.fix.routing)
            && (Even(t, ops, b) ==> f.end != Trips && f.end != Outside)
            && (t.cfg.space >= MIN_SPACE ==> t.next - 1 + f.pages <= 3 * |t.contents| + 3)
            && t.next >= 2
  {
    hide TreeOk, Represents, Rows, FromRoot, BTree.PagesValid, Full, Roomy, RowsWithin, Cost, Bushy;
    var e := Entry(ops[n].id, ops[n].blob);
    EndFromRoot(t.cfg, t.nodes, t.fences, t.root, t.contents, t.fix, e);
    assert t.root in t.nodes.Keys && |t.nodes.Keys| == |t.nodes|;
    if t.cfg.space >= MIN_SPACE {
      PagesForRows(t.cfg, t.nodes, t.fences, t.root, t.contents);
    }
    if Even(t, ops, b) {
      RowsCost(ops, n, b);
      assert ops[n] in ops;
      AllTyped(t.cfg, t.nodes, t.fences, t.root);
      RowsWithinBounds(t.nodes, t.contents, b);
      NeverTripsFromRoot(t.cfg, t.nodes, t.fences, t.root, t.contents, t.fix, e, b);
    }
  }

  lemma {:induction false} RowsGrow(ops: seq<Op>, n: nat)
    requires n <= |ops|
    ensures Rows(ops[..n]).Keys <= Rows(ops).Keys && |Rows(ops[..n])| <= |Rows(ops)|
    decreases |ops| - n
  {
    if n < |ops| {
      RowsStep(ops, n);
      RowsGrow(ops, n + 1);
      SubsetSize(Rows(ops[..n]).Keys, Rows(ops[..n + 1]).Keys);
      assert |Rows(ops[..n]).Keys| == |Rows(ops[..n])| && |Rows(ops[..n + 1]).Keys| == |Rows(ops[..n + 1])|;
    } else {
      assert ops[..n] == ops;
    }
  }

  /** More pages are foreseen for the row than can be made. */
  ghost predicate Lacks(t: BTree, id: nat, blob: seq<Byte>)
    requires Entry(id, blob).Fits()
    reads t
  {
    && t.root in t.nodes && t.root in t.fences && t.nodes[t.root].Typed()
    && t.available < t.Foreseen(id, blob).pages
  }

  /** The insertion does not return, or it leaves a page off; it adds the row twice. */
  predicate BreaksBy(fix: Repairs, f: Fate, available: nat) {
    available >= f.pages && (f.end == Trips || f.end == Outside || (f.end == Found && !fix.cleanup))
  }

  predicate DoublesBy(f: Fate, available: nat) {
    available >= f.pages && f.end == Twice
  }

  ghost function FateOf(t: BTree, id: nat, blob: seq<Byte>): Fate
    requires Entry(id, blob).Fits()
    reads t
  {
    if t.root in t.nodes && t.root in t.fences && t.nodes[t.root].Typed() then t.Foreseen(id, blob)
    else Fate(Outside, 0)
  }

  /** Some tree that holds just the rows m breaks at this insert, or doubles the row, or
      has not enough of `capacity` page ids left for what is foreseen. */
  ghost predicate Warranted(cfg: Config, fix: Repairs, m: map<nat, seq<Byte>>, op: Op, stop: Stop, capacity: nat) {
    exists nodes: Pages, fs: Fences, root: PageId ::
      && TreeOk(cfg, nodes, fs, root) && Represents(nodes, m)
      && root in nodes && root in fs && nodes[root].Typed() && op.Put? && Entry(op.id, op.blob).Fits()
      && var f := FromRoot(cfg.space, fix, nodes, root, fs[root].level, Entry(op.id, op.blob));
         match stop
         case Breaks => BreaksBy(fix, f, f.pages)
         case Doubles => DoublesBy(f, f.pages)
         case NoPage => |nodes| + f.pages >= capacity
         case Done => true
  }

  lemma Warrants(cfg: Config, fix: Repairs, nodes: Pages, fs: Fences, root: PageId, m: map<nat, seq<Byte>>, op: Op,
                 stop: Stop, available: nat, capacity: nat)
    requires TreeOk(cfg, nodes, fs, root) && Represents(nodes, m) && op.Put? && Entry(op.id, op.blob).Fits()
    requires root in nodes && root in fs && nodes[root].Typed()
    requires var f := FromRoot(cfg.space, fix, nodes, root, fs[root].level, Entry(op.id, op.blob));
             && (stop == Breaks ==> BreaksBy(fix, f, available)) && (stop == Doubles ==> DoublesBy(f, available))
             && (stop == NoPage ==> f.pages > available && |nodes| + 1 + available == capacity)
    ensures Warranted(cfg, fix, m, op, stop, capacity)
  {
    hide TreeOk, Represents, FromRoot;
  }

  lemma PagesMade(t: BTree)
    requires t.Valid()
    ensures |t.nodes| + 1 + t.available == t.Capacity()
  {
    hide TreeOk, Represents, BTree.PagesValid, Bushy;
  }

  /** One insert of a run, by a caller who knows which ids there are. */
  method PutNext(t: BTree, ops: seq<Op>, n: nat, seen: set<nat>, ghost b: Costs) returns (r: Result, stop: Stop)
    requires n < |ops| && ops[n].Put? && t.Valid() && t.contents == Rows(ops[..n]) && t.latches == map[] && !t.failed
    requires Fits(t, ops[n].id, ops[n].blob) && seen == t.contents.Keys
    modifies t, t.repr
    ensures fresh(t.repr - old(t.repr)) && t.Capacity() == old(t.Capacity())
    ensures stop == Done ==> t.Valid() && t.latches == map[] && t.contents == Rows(ops[..n + 1])
    ensures stop == Done ==> PutDone(r) == ReplyOf(Rows(ops[..n]), ops[n])
    ensures stop == Breaks && Even(t, ops, b) ==> !t.fix.cleanup && ops[n].id in Rows(ops[..n])
    ensures stop == Doubles ==> !t.fix.routing && ops[n].id in Rows(ops[..n]) && StillAnswers(t, Rows(ops[..n]))
    ensures stop == NoPage <==> old(Lacks(t, ops[n].id, ops[n].blob))
    ensures stop == Breaks <==> BreaksBy(t.fix, old(FateOf(t, ops[n].id, ops[n].blob)), old(t.available))
    ensures stop == Doubles <==> DoublesBy(old(FateOf(t, ops[n].id, ops[n].blob)), old(t.available))
    ensures Warranted(t.cfg, t.fix, Rows(ops[..n]), ops[n], stop, old(t.Capacity()))
    ensures stop == NoPage && t.cfg.space >= MIN_SPACE ==> old(t.Capacity()) <= 3 * |Rows(ops[..n])| + 3
  {
    hide TreeOk, Represents, Rows, FromRoot, Full, Answers, Duplicated, BTree.PagesValid, Even, Torn, Searchable,
         Shaped, BTree.TornOff, BTree.TornLooks, Search, Warranted;
    RowsStep(ops, n);
    PutFate(t, ops, n, b);
    t.AtRoot(ops[n].id);
    PagesMade(t);
    ghost var nodes, fs, root, m, available := t.nodes, t.fences, t.root, t.contents, t.available;
    r := Insert(t, ops[n].id, ops[n].blob);
    stop := if r == NoMem then NoPage
            else if r == Fails || r == Strays || t.latches != map[] then Breaks
            else if r == Ok && ops[n].id in seen then Doubles
            else Done;
    assert t.entered in map[t.entered := -1];
    Warrants(t.cfg, t.fix, nodes, fs, root, m, ops[n], stop, available, t.Capacity());
  }

  /** The pages are no tree any more, but lookups answer as m does; and the bytes do so
      too, see `LookupIn`. */
  ghost predicate StillAnswers(t: BTree, m: map<nat, seq<Byte>>)
    reads t, t.repr
  {
    t.PagesValid() && Searchable(t.cfg, t.nodes) && t.latches == map[] && Answers(t.nodes, t.root, t.fences, m)
  }

  /** A run on an empty table, of a caller who clears errors: every answer is that of
      the map of first inserts, until the run stops. It lacks a page only when there are
      no three pages a row. With the guards as meant and rows of like cost it breaks only
      at an id that is there already, and only with the cleanup as written; an id is added
      twice only with the routing as written. So a run comes to its end if there is enough
      of everything. */
  method Run(t: BTree, ops: seq<Op>, ghost b: Costs) returns (replies: seq<Reply>, stop: Stop)
    requires t.Valid() && t.contents == map[] && t.latches == map[] && !t.failed
    requires forall op :: op in ops ==> Allowed(t, op)
    modifies t, t.repr
    ensures stop == Done ==> |replies| == |ops| && t.Valid() && t.contents == Rows(ops) && t.latches == map[]
    ensures stop != Done ==> |replies| < |ops| && ops[|replies|].Put?
    ensures forall i :: 0 <= i < |replies| ==> replies[i] == ReplyOf(Rows(ops[..i]), ops[i])
    ensures stop == Breaks && Even(t, ops, b) ==> !t.fix.cleanup && ops[|replies|].id in Rows(ops[..|replies|])
    ensures stop == Doubles ==> !t.fix.routing && ops[|replies|].id in Rows(ops[..|replies|])
    ensures stop == Doubles ==> StillAnswers(t, Rows(ops[..|replies|]))
    ensures stop == NoPage && t.cfg.space >= MIN_SPACE ==> old(t.available) <= 3 * |Rows(ops[..|replies|])| + 1
    ensures stop != Done ==> Warranted(t.cfg, t.fix, Rows(ops[..|replies|]), ops[|replies|], stop, old(t.Capacity()))
    ensures Suffices(t, ops, b, old(t.available)) ==> stop == Done
  {
    hide TreeOk, Represents, Rows, BTree.PagesValid, Even, Fits, Shaped, StillAnswers, OncePerId, Suffices, Allowed,
         Duplicated, BTree.Valid, BTree.Capacity, Warranted;
    replies, stop := [], Done;
    var seen: set<nat> := {};
    RowsStep(ops, 0);
    assert ops[..0] == [];
    TwoPages(t);
    while |replies| < |ops|
      invariant |replies| <= |ops| && t.Valid() && t.contents == Rows(ops[..|replies|]) && seen == t.contents.Keys
      invariant t.latches == map[] && !t.failed && fresh(t.repr - old(t.repr))
      invariant t.Capacity() == old(t.Capacity()) && stop == Done
      invariant forall i :: 0 <= i < |replies| ==> replies[i] == ReplyOf(Rows(ops[..i]), ops[i])
    {
      var n := |replies|;
      assert ops[n] in ops;
      var reply;
      reply, stop := Next(t, ops, n, seen, b);
      if stop != Done {
        Excused(t, ops, n, b, stop, old(t.available));
        return;
      }
      SeenNext(ops, n);
      seen := if ops[n].Put? then seen + {ops[n].id} else seen;
      replies := replies + [reply];
    }
    assert ops[..|ops|] == ops;
  }

  /** One operation of a run. */
  method Next(t: BTree, ops: seq<Op>, n: nat, seen: set<nat>, ghost b: Costs) returns (reply: Reply, stop: Stop)
    requires n < |ops| && t.Valid() && t.contents == Rows(ops[..n]) && t.latches == map[] && !t.failed
    requires Allowed(t, ops[n]) && seen == t.contents.Keys
    modifies t, t.repr
    ensures fresh(t.repr - old(t.repr)) && t.Capacity() == old(t.Capacity())
    ensures stop == Done ==> t.Valid() && t.latches == map[] && !t.failed && t.contents == Rows(ops[..n + 1])
    ensures stop == Done ==> reply == ReplyOf(Rows(ops[..n]), ops[n])
    ensures stop != Done ==> ops[n].Put? && Warranted(t.cfg, t.fix, Rows(ops[..n]), ops[n], stop, old(t.Capacity()))
    ensures stop == Breaks && Even(t, ops, b) ==> !t.fix.cleanup && ops[n].id in Rows(ops[..n])
    ensures stop == Doubles ==> !t.fix.routing && ops[n].id in Rows(ops[..n]) && StillAnswers(t, Rows(ops[..n]))
    ensures stop == NoPage && t.cfg.space >= MIN_SPACE ==> old(t.Capacity()) <= 3 * |Rows(ops[..n])| + 3
  {
    hide TreeOk, Represents, Rows, BTree.PagesValid, Even, Fits, Shaped, StillAnswers, Warranted;
    RowsStep(ops, n);
    match ops[n] {
      case Put(id, blob) =>
        var r;
        r, stop := PutNext(t, ops, n, seen, b);
        reply := PutDone(r);
      case Get(id) =>
        var r := Lookup(t, id);
        reply, stop := GetDone(r), Done;
    }
    if stop == Done {
      t.ClearError();
    }
  }

  /** There is enough of everything for a run: rows of like cost with the guards as meant,
      three pages a row, and no repeated id unless routing and cleanup are as meant. */
  ghost predicate Suffices(t: BTree, ops: seq<Op>, b: Costs, available: nat) {
    && Even(t, ops, b) && available >= 3 * |Rows(ops)| + 2
    && (OncePerId(ops) || (t.fix.cleanup && t.fix.routing))
  }

  lemma SeenNext(ops: seq<Op>, n: nat)
    requires n < |ops|
    ensures Rows(ops[..n + 1]).Keys
            == if ops[n].Put? then Rows(ops[..n]).Keys + {ops[n].id} else Rows(ops[..n]).Keys
  {
    hide Rows;
    RowsStep(ops, n);
  }

  lemma TwoPages(t: BTree)
    requires t.Valid()
    ensures t.Capacity() >= t.available + 2
  {
    hide TreeOk, Represents, BTree.PagesValid, Bushy;
    RootBounds(t.cfg, t.nodes, t.fences, t.root);
    assert t.root in t.nodes.Keys && |t.nodes.Keys| == |t.nodes|;
  }

  /** Where that is so, a run has no reason to stop at its n-th operation. */
  lemma Excused(t: BTree, ops: seq<Op>, n: nat, b: Costs, stop: Stop, available: nat)
    requires n < |ops| && ops[n].Put? && stop != Done
    requires stop == Breaks && Even(t, ops, b) ==> !t.fix.cleanup && ops[n].id in Rows(ops[..n])
    requires stop == Doubles ==> !t.fix.routing && ops[n].id in Rows(ops[..n])
    requires stop == NoPage && t.cfg.space >= MIN_SPACE ==> available <= 3 * |Rows(ops[..n])| + 1
    ensures !Suffices(t, ops, b, available)
  {
    hide Rows;
    RowsGrow(ops, n);
    RowsAreFirstPuts(ops[..n], ops[n].id);
    InnerRoomy(t.cfg.space);
  }
}
