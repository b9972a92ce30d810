/** Block payloads linked by digest, and the application they drive.

    Digests are symbolic: the digest of a payload is a constructor holding the
    payload, whose parent is again a digest. Distinct payloads then have distinct
    digests and no payload is its own ancestor, which is what the consensus code
    takes from SHA-256. */
module Chain {
  import opened Common
  import opened Merkle
  import opened StateRoot

  datatype Payload = Payload(
    height: nat,
    timeNanos: nat,
    proposer: Bytes,
    txs: seq<Bytes>,
    parent: Digest,
    stateRoot: Hash)

  /** `Genesis` is the constant parent of the first block; `Unknown` is any other
      value that is not the digest of a payload. */
  datatype Digest = Genesis | Of(payload: Payload) | Unknown(id: nat)

  /** The payloads from the first block to `d`, oldest first. */
  function ChainOf(d: Digest): seq<Payload> {
    if d.Of? then ChainOf(d.payload.parent) + [d.payload] else []
  }

  /** `a` is `d` or is reached from `d` over parent links. */
  predicate Ancestor(a: Digest, d: Digest) {
    a == d || (d.Of? && Ancestor(a, d.payload.parent))
  }

  /** The payloads after `a` up to and including `d`, oldest first. */
  function PathFrom(a: Digest, d: Digest): seq<Payload>
    requires Ancestor(a, d)
  {
    if a == d then [] else PathFrom(a, d.payload.parent) + [d.payload]
  }

  lemma {:induction false} AncestorTransitive(a: Digest, b: Digest, c: Digest)
    requires Ancestor(a, b) && Ancestor(b, c)
    ensures Ancestor(a, c)
    decreases c
  {
    if b != c {
      AncestorTransitive(a, b, c.payload.parent);
    }
  }

  /** The chain of an ancestor is a prefix, and the path is the rest. */
  lemma {:induction false} ChainSplits(a: Digest, d: Digest)
    requires Ancestor(a, d)
    ensures ChainOf(d) == ChainOf(a) + PathFrom(a, d)
    decreases d
  {
    if a != d {
      ChainSplits(a, d.payload.parent);
    }
  }

  lemma {:induction false} AncestorAntisymmetric(a: Digest, b: Digest)
    requires Ancestor(a, b) && Ancestor(b, a)
    ensures a == b
  {
    ChainSplits(a, b);
    ChainSplits(b, a);
  }

  /** Two ancestors of one digest lie on one line. */
  lemma {:induction false} AncestorsComparable(a: Digest, b: Digest, d: Digest)
    requires Ancestor(a, d) && Ancestor(b, d)
    ensures Ancestor(a, b) || Ancestor(b, a)
    decreases d
  {
    if a != d && b != d {
      AncestorsComparable(a, b, d.payload.parent);
    }
  }

  lemma {:induction false} PathComposes(a: Digest, b: Digest, d: Digest)
    requires Ancestor(a, b) && Ancestor(b, d)
    ensures Ancestor(a, d) && PathFrom(a, d) == PathFrom(a, b) + PathFrom(b, d)
    decreases d
  {
    AncestorTransitive(a, b, d);
    if b != d {
      PathComposes(a, b, d.payload.parent);
      if a == d {
        AncestorAntisymmetric(b, d);
      }
    }
  }

  // ----- the application -----

  datatype Block = Block(txs: seq<Bytes>, height: nat, timeNanos: nat, proposer: Bytes)

  /** Committed state: key-value entries, the last block, and the payload bytes kept
      under `_payload/{height}`. */
  datatype App = App(kv: Store, height: nat, timeNanos: nat, payloads: map<nat, Payload>)

  /** The block logic, deterministic but otherwise arbitrary, and the root of a state. */
  datatype Machine = Machine(run: (Store, Block) -> Option<Store>, root: Store -> Hash)

  /** `block_from_payload`. */
  function BlockOf(p: Payload, height: nat): Block {
    Block(p.txs, height, p.timeNanos, p.proposer)
  }

  /** `finalize_block_impl`: refuse a block that is not the next height or goes back
      in time, then run it. */
  function FinalizeBlock(m: Machine, app: App, block: Block): Option<App> {
    if block.height != app.height + 1 then None
    else if block.timeNanos < app.timeNanos then None
    else
      match m.run(app.kv, block)
      case None => None
      case Some(kv) => Some(App(kv, block.height, block.timeNanos, app.payloads))
  }

  /** `finalize_block_with_payload`: the payload lands in the same commit. */
  function Commit(m: Machine, app: App, p: Payload, height: nat): Option<App> {
    match FinalizeBlock(m, app, BlockOf(p, height))
    case None => None
    case Some(next) => Some(next.(payloads := next.payloads[height := p]))
  }

  /** The state a chain leads to, when every block on it extends the one before: the
      next height, a state root equal to the state before it, and a run that
      succeeds. */
  function Executed(m: Machine, g: App, d: Digest): Option<App> {
    match d
    case Genesis => Some(g)
    case Unknown(_) => None
    case Of(p) =>
      match Executed(m, g, p.parent)
      case None => None
      case Some(app) =>
        if p.height != app.height + 1 || p.stateRoot != m.root(app.kv) then None
        else Commit(m, app, p, p.height)
  }

  ghost predicate IsGenesis(g: App) {
    g.height == 0 && g.payloads == map[]
  }

  /** Everything an executed chain guarantees about one of its blocks. */
  ghost predicate GoodBlock(m: Machine, g: App, d: Digest, i: nat) {
    var chain := ChainOf(d);
    && i < |chain|
    && chain[i].height == i + 1
    && chain[i].parent == (if i == 0 then Genesis else Of(chain[i - 1]))
    && var before := Executed(m, g, chain[i].parent);
       before.Some? && chain[i].stateRoot == m.root(before.value.kv)
  }

  /** An executed chain starts at genesis, its heights are contiguous, every block
      carries the root of the state before it, and the app's own record of executed
      payloads is exactly the chain. */
  lemma {:induction false} ExecutedShape(m: Machine, g: App, d: Digest)
    requires IsGenesis(g) && Executed(m, g, d).Some?
    ensures var app, chain := Executed(m, g, d).value, ChainOf(d);
            && app.height == |chain|
            && (forall i :: 0 <= i < |chain| ==> GoodBlock(m, g, d, i))
            && (forall h :: h in app.payloads <==> 1 <= h <= |chain|)
            && (forall h :: 1 <= h <= |chain| ==> app.payloads[h] == chain[h - 1])
    decreases d
  {
    if d.Of? {
      var parent := d.payload.parent;
      ExecutedShape(m, g, parent);
      var chain, before := ChainOf(d), ChainOf(parent);
      forall i | 0 <= i < |chain|
        ensures GoodBlock(m, g, d, i)
      {
        if i < |before| {
          assert GoodBlock(m, g, parent, i);
          assert chain[i] == before[i];
        } else {
          LastOfChain(parent);
        }
      }
    }
  }

  lemma LastOfChain(d: Digest)
    ensures d.Of? ==> ChainOf(d) != [] && ChainOf(d)[|ChainOf(d)| - 1] == d.payload
    ensures !d.Of? ==> ChainOf(d) == []
  {
  }

  /** Ancestors of an executed digest were executed, at their own height. */
  lemma {:induction false} ExecutedAncestor(m: Machine, g: App, a: Digest, d: Digest)
    requires IsGenesis(g) && Ancestor(a, d) && Executed(m, g, d).Some?
    ensures Executed(m, g, a).Some?
    ensures Executed(m, g, a).value.height == |ChainOf(a)| <= |ChainOf(d)|
    ensures a != d ==> |ChainOf(a)| < |ChainOf(d)|
    decreases d
  {
    ExecutedShape(m, g, d);
    if a != d {
      ExecutedAncestor(m, g, a, d.payload.parent);
    }
  }

  /** The height of an executed payload is its position in the chain. */
  lemma HeightIsPosition(m: Machine, g: App, d: Digest)
    requires IsGenesis(g) && Executed(m, g, d).Some? && d.Of?
    ensures d.payload.height == |ChainOf(d)| == Executed(m, g, d).value.height
  {
    ExecutedShape(m, g, d);
  }

  /** One executed chain has one block per height: two ancestors of one executed digest
      with the same height are the same block. */
  lemma OneBlockPerHeight(m: Machine, g: App, p: Payload, q: Payload, d: Digest)
    requires IsGenesis(g) && Executed(m, g, d).Some?
    requires Ancestor(Of(p), d) && Ancestor(Of(q), d) && p.height == q.height
    ensures p == q
  {
    ExecutedAncestor(m, g, Of(p), d);
    ExecutedAncestor(m, g, Of(q), d);
    HeightIsPosition(m, g, Of(p));
    HeightIsPosition(m, g, Of(q));
    AncestorsComparable(Of(p), Of(q), d);
    if Ancestor(Of(p), Of(q)) {
      ExecutedAncestor(m, g, Of(p), Of(q));
    } else {
      ExecutedAncestor(m, g, Of(q), Of(p));
    }
  }

  // ----- execution, block by block -----

  /** The entries that running the payloads of `chain` one after the other leads to, each
      as a block of its own transactions, height, time and proposer. */
  ghost function Replay(m: Machine, kv: Store, chain: seq<Payload>): Option<Store> {
    if chain == [] then Some(kv)
    else
      var n := |chain| - 1;
      var p := chain[n];
      match Replay(m, kv, chain[..n])
      case None => None
      case Some(before) => m.run(before, Block(p.txs, p.height, p.timeNanos, p.proposer))
  }

  /** Block `i` of a chain is the next one: in height, not before its parent in time, and
      declaring the root of the entries before it. */
  ghost predicate Fits(m: Machine, g: App, chain: seq<Payload>, i: nat)
    requires i < |chain|
  {
    && chain[i].height == i + 1
    && chain[i].timeNanos >= (if i == 0 then g.timeNanos else chain[i - 1].timeNanos)
    && var before := Replay(m, g.kv, chain[..i]);
       before.Some? && chain[i].stateRoot == m.root(before.value)
  }

  ghost predicate Executable(m: Machine, g: App, chain: seq<Payload>) {
    Replay(m, g.kv, chain).Some? && forall i :: 0 <= i < |chain| ==> Fits(m, g, chain, i)
  }

  /** Where the parent links of `d` end. */
  function Bottom(d: Digest): Digest {
    if d.Of? then Bottom(d.payload.parent) else d
  }

  lemma ExecutableStep(m: Machine, g: App, chain: seq<Payload>, p: Payload)
    ensures Executable(m, g, chain + [p]) <==>
            && Executable(m, g, chain) && Fits(m, g, chain + [p], |chain|)
            && m.run(Replay(m, g.kv, chain).value, Block(p.txs, p.height, p.timeNanos, p.proposer)).Some?
    ensures Executable(m, g, chain) ==>
            Replay(m, g.kv, chain + [p]) ==
            m.run(Replay(m, g.kv, chain).value, Block(p.txs, p.height, p.timeNanos, p.proposer))
  {
    var more := chain + [p];
    assert more[..|chain|] == chain;
    forall i | 0 <= i < |chain|
      ensures Fits(m, g, more, i) <==> Fits(m, g, chain, i)
    {
      assert more[..i] == chain[..i];
    }
    if Executable(m, g, more) {
      assert Fits(m, g, more, |chain|);
      assert forall i :: 0 <= i < |chain| ==> Fits(m, g, more, i);
    }
  }

  /** When a digest executes, exactly: its links end at genesis and its chain runs, block by
      block. The state is then what the blocks' own transactions made of the genesis
      entries, and records the chain. */
  lemma {:induction false} ExecutedIff(m: Machine, g: App, d: Digest)
    requires IsGenesis(g)
    ensures Executed(m, g, d).Some? <==> Bottom(d) == Genesis && Executable(m, g, ChainOf(d))
    ensures Executed(m, g, d).Some? ==>
            var app, chain := Executed(m, g, d).value, ChainOf(d);
            && app.height == |chain| && Some(app.kv) == Replay(m, g.kv, chain)
            && app.timeNanos == (if chain == [] then g.timeNanos else chain[|chain| - 1].timeNanos)
    decreases d
  {
    if d.Of? {
      var p, before := d.payload, ChainOf(d.payload.parent);
      ExecutedIff(m, g, p.parent);
      ExecutableStep(m, g, before, p);
      assert (before + [p])[..|before|] == before;
    }
  }
}
