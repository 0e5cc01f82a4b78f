/**
 * The in-memory consensus pool (pool.rs): a validated and an unvalidated section, each a
 * map from artifact key to artifact, changed through lists of pool operations. Every
 * insert files its artifact under the same fixed key `"Hash"` and keeps an existing entry,
 * so a section holds at most one artifact, the first one ever inserted.
 */
module Pool {
  import opened Messages

  /** The key under which every artifact is filed. */
  const FixedKey: string := "Hash"

  /** A pool change (`PoolSectionOp`): its only kind inserts one artifact. */
  datatype PoolSectionOp<T> = Insert(artifact: T)

  /** A section's map after `insert(artifact)`: `entry("Hash").or_insert(artifact)`. */
  function OrInsert<T>(artifacts: map<string, T>, artifact: T): (r: map<string, T>)
    ensures FixedKey in r
    ensures r.Keys == artifacts.Keys + {FixedKey}
    ensures FixedKey in artifacts ==> r == artifacts
    ensures FixedKey !in artifacts ==> r[FixedKey] == artifact
    ensures forall k :: k in artifacts && k != FixedKey ==> r[k] == artifacts[k]
  {
    if FixedKey in artifacts then artifacts else artifacts[FixedKey := artifact]
  }

  /** A section's map after the operations, applied in list order. */
  function Applied<T>(artifacts: map<string, T>, ops: seq<PoolSectionOp<T>>): (r: map<string, T>)
    ensures r.Keys == if ops == [] then artifacts.Keys else artifacts.Keys + {FixedKey}
    ensures forall k :: k in artifacts && k != FixedKey ==> r[k] == artifacts[k]
    decreases |ops|
  {
    if ops == [] then artifacts else Applied(OrInsert(artifacts, ops[0].artifact), ops[1..])
  }

  /** Applying operations in two batches is applying them in one. */
  lemma {:induction false} AppliedConcatenates<T>(artifacts: map<string, T>, ops: seq<PoolSectionOp<T>>, more: seq<PoolSectionOp<T>>)
    ensures Applied(artifacts, ops + more) == Applied(Applied(artifacts, ops), more)
    decreases |ops|
  {
    if ops != [] {
      assert (ops + more)[1..] == ops[1..] + more;
      AppliedConcatenates(OrInsert(artifacts, ops[0].artifact), ops[1..], more);
    } else {
      assert ops + more == more;
    }
  }

  /** The first artifact ever inserted is the one kept: a section that holds nothing under
      `"Hash"` ends up with the first operation's artifact, and one that does keeps it. */
  lemma {:induction false} FirstInsertWins<T>(artifacts: map<string, T>, ops: seq<PoolSectionOp<T>>)
    ensures FixedKey in artifacts ==> Applied(artifacts, ops) == artifacts
    ensures FixedKey !in artifacts && ops != [] ==> Applied(artifacts, ops) == artifacts[FixedKey := ops[0].artifact]
    decreases |ops|
  {
    if ops != [] {
      var next := OrInsert(artifacts, ops[0].artifact);
      FirstInsertWins(next, ops[1..]);
    }
  }

  /** A section that starts with at most the fixed key holds at most one artifact. */
  lemma {:induction false} AtMostOneArtifact<T>(artifacts: map<string, T>, ops: seq<PoolSectionOp<T>>)
    requires artifacts.Keys <= {FixedKey}
    ensures Applied(artifacts, ops).Keys <= {FixedKey}
    ensures |Applied(artifacts, ops).Keys| <= 1
    decreases |ops|
  {
    if ops != [] {
      AtMostOneArtifact(OrInsert(artifacts, ops[0].artifact), ops[1..]);
    }
    var keys := Applied(artifacts, ops).Keys;
    assert keys == {} || keys == {FixedKey};
  }

  /** `PoolSectionOps`: a list of operations, built up by `insert`. */
  class PoolSectionOps<T> {
    var ops: seq<PoolSectionOp<T>>

    /** `PoolSectionOps::new` (lines 103-105). */
    constructor()
      ensures ops == []
    {
      ops := [];
    }

    /** `PoolSectionOps::insert` (lines 107-109): appends one insert at the end. */
    method Insert(artifact: T)
      modifies this
      ensures ops == old(ops) + [PoolSectionOp.Insert(artifact)]
    {
      ops := ops + [PoolSectionOp.Insert(artifact)];
    }
  }

  /** `InMemoryPoolSection`: the artifacts of one section. */
  class InMemoryPoolSection<T> {
    var artifacts: map<string, T>

    constructor()
      ensures artifacts == map[]
    {
      artifacts := map[];
    }

    /** `insert` (lines 29-32). */
    method Insert(artifact: T)
      modifies this
      ensures artifacts == OrInsert(old(artifacts), artifact)
    {
      if FixedKey !in artifacts {
        artifacts := artifacts[FixedKey := artifact];
      }
    }

    /** `mutate` (lines 20-27): applies every operation in list order. */
    method Mutate(ops: seq<PoolSectionOp<T>>)
      modifies this
      ensures artifacts == Applied(old(artifacts), ops)
    {
      for i := 0 to |ops|
        invariant Applied(old(artifacts), ops) == Applied(artifacts, ops[i..])
      {
        assert ops[i..][1..] == ops[i + 1..];
        match ops[i]
        case Insert(artifact) => Insert(artifact);
      }
    }
  }

  /** An artifact received from a peer (`UnvalidatedArtifact`). */
  datatype UnvalidatedArtifact<M> = UnvalidatedArtifact(message: M, peerId: u8)

  /** An artifact the replica has validated (`ValidatedArtifact`). */
  datatype ValidatedArtifact<M> = ValidatedArtifact(msg: M)

  /** The validated operations `apply_changes` builds (lines 56-75): one insert per change,
      whether it adds or moves the message. */
  function ValidatedOps<M>(changeSet: seq<ChangeAction<M>>): (ops: seq<PoolSectionOp<ValidatedArtifact<M>>>)
    ensures |ops| == |changeSet|
    ensures forall i :: 0 <= i < |changeSet| ==>
              ops[i].artifact.msg == match changeSet[i] case AddToValidated(m) => m case MoveToValidated(m) => m
  {
    if changeSet == [] then []
    else
      var msg := match changeSet[0] case AddToValidated(m) => m case MoveToValidated(m) => m;
      [PoolSectionOp.Insert(ValidatedArtifact(msg))] + ValidatedOps(changeSet[1..])
  }

  /** `ConsensusPoolImpl`, over the messages `M` the change actions carry. */
  class ConsensusPoolImpl<M> {
    const validated: InMemoryPoolSection<ValidatedArtifact<M>>
    const unvalidated: InMemoryPoolSection<UnvalidatedArtifact<M>>

    constructor()
      ensures fresh(validated) && fresh(unvalidated)
      ensures validated.artifacts == map[] && unvalidated.artifacts == map[]
    {
      validated := new InMemoryPoolSection();
      unvalidated := new InMemoryPoolSection();
    }

    /** `insert` (lines 48-52): one operation for the unvalidated section. */
    method Insert(unvalidatedArtifact: UnvalidatedArtifact<M>)
      modifies unvalidated
      ensures unvalidated.artifacts == OrInsert(old(unvalidated.artifacts), unvalidatedArtifact)
      ensures validated.artifacts == old(validated.artifacts)
    {
      var ops := new PoolSectionOps();
      ops.Insert(unvalidatedArtifact);
      ApplyChangesUnvalidated(ops.ops);
    }

    /** `apply_changes` (lines 54-76): builds the validated operations and drops them, so
        neither section changes. */
    method ApplyChanges(changeSet: seq<ChangeAction<M>>)
      ensures validated.artifacts == old(validated.artifacts)
      ensures unvalidated.artifacts == old(unvalidated.artifacts)
    {
      var unvalidatedOps := new PoolSectionOps<UnvalidatedArtifact<M>>();
      var validatedOps := new PoolSectionOps<ValidatedArtifact<M>>();
      for i := 0 to |changeSet|
        invariant validatedOps.ops == ValidatedOps(changeSet[..i])
      {
        ValidatedOpsExtend(changeSet, i);
        match changeSet[i]
        case AddToValidated(toAdd) =>
          validatedOps.Insert(ValidatedArtifact(toAdd));
        case MoveToValidated(toMove) =>
          validatedOps.Insert(ValidatedArtifact(toMove));
      }
    }

    /** `apply_changes_validated` (lines 78-82). */
    method ApplyChangesValidated(ops: seq<PoolSectionOp<ValidatedArtifact<M>>>)
      modifies validated
      ensures validated.artifacts == Applied(old(validated.artifacts), ops)
      ensures ops == [] ==> validated.artifacts == old(validated.artifacts)
      ensures unvalidated.artifacts == old(unvalidated.artifacts)
    {
      if ops != [] {
        validated.Mutate(ops);
      }
    }

    /** `apply_changes_unvalidated` (lines 84-88). */
    method ApplyChangesUnvalidated(ops: seq<PoolSectionOp<UnvalidatedArtifact<M>>>)
      modifies unvalidated
      ensures unvalidated.artifacts == Applied(old(unvalidated.artifacts), ops)
      ensures ops == [] ==> unvalidated.artifacts == old(unvalidated.artifacts)
      ensures validated.artifacts == old(validated.artifacts)
    {
      if ops != [] {
        unvalidated.Mutate(ops);
      }
    }
  }

  lemma ValidatedOpsExtend<M>(changeSet: seq<ChangeAction<M>>, i: nat)
    requires i < |changeSet|
    ensures ValidatedOps(changeSet[..i + 1])
            == ValidatedOps(changeSet[..i])
               + [PoolSectionOp.Insert(ValidatedArtifact(match changeSet[i] case AddToValidated(m) => m case MoveToValidated(m) => m))]
  {
    ValidatedOpsSplit(changeSet[..i], [changeSet[i]]);
    assert changeSet[..i] + [changeSet[i]] == changeSet[..i + 1];
  }

  lemma {:induction false} ValidatedOpsSplit<M>(a: seq<ChangeAction<M>>, b: seq<ChangeAction<M>>)
    ensures ValidatedOps(a + b) == ValidatedOps(a) + ValidatedOps(b)
    decreases |a|
  {
    if a != [] {
      assert (a + b)[1..] == a[1..] + b;
      ValidatedOpsSplit(a[1..], b);
    }
  }
}
