/**
 * The height-indexed bucket store of the consensus pool (height_index.rs): a sorted map
 * from height to a duplicate-free list of values, whose insert and remove report whether
 * they changed anything and never leave an empty bucket behind.
 */
module HeightIndexes {
  import opened Messages

  /** No value occurs twice. */
  predicate NoDuplicates<T(==,!new)>(s: seq<T>) {
    forall i, j :: 0 <= i < j < |s| ==> s[i] != s[j]
  }

  /** The buckets the store keeps: none is empty and none holds a value twice. */
  predicate WellFormed<T(==,!new)>(buckets: map<u64, seq<T>>) {
    forall h :: h in buckets ==> buckets[h] != [] && NoDuplicates(buckets[h])
  }

  /** `retain(|x| x != value)`: the elements other than `value`, in their order. */
  function Without<T(==,!new)>(s: seq<T>, value: T): (r: seq<T>)
    ensures forall x :: x in r <==> x in s && x != value
    ensures |r| <= |s|
    ensures |r| == |s| <==> value !in s
  {
    if s == [] then []
    else if s[0] == value then Without(s[1..], value)
    else [s[0]] + Without(s[1..], value)
  }

  /** The buckets after `insert(height, value)`. */
  function InsertInto<T(==,!new)>(buckets: map<u64, seq<T>>, height: u64, value: T): (r: map<u64, seq<T>>)
    ensures height in r && value in r[height]
    ensures r.Keys == buckets.Keys + {height}
    ensures forall h :: h in buckets && h != height ==> r[h] == buckets[h]
    ensures height in buckets && value in buckets[height] ==> r == buckets
  {
    var values := if height in buckets then buckets[height] else [];
    if value in values then buckets else buckets[height := values + [value]]
  }

  /** The buckets after `remove(height, value)`. */
  function RemoveFrom<T(==,!new)>(buckets: map<u64, seq<T>>, height: u64, value: T): (r: map<u64, seq<T>>)
    ensures height in r ==> value !in r[height] && r[height] != []
    ensures r.Keys <= buckets.Keys
    ensures forall h :: h in buckets && h != height ==> h in r && r[h] == buckets[h]
    ensures height !in buckets ==> r == buckets
  {
    if height !in buckets then buckets
    else
      var bucket := Without(buckets[height], value);
      if bucket == [] then buckets - {height} else buckets[height := bucket]
  }

  class HeightIndex<T(==,!new)> {
    var buckets: map<u64, seq<T>>

    /** The invariant of the store: no bucket is empty and none holds a value twice. */
    ghost predicate Valid()
      reads this
    {
      WellFormed(buckets)
    }

    constructor()
      ensures Valid()
      ensures buckets == map[]
    {
      buckets := map[];
    }

    /** `insert` (lines 28-35): true iff `value` was not yet at `height`. */
    method Insert(height: u64, value: T) returns (inserted: bool)
      requires Valid()
      modifies this
      ensures Valid()
      ensures inserted <==> !(height in old(buckets) && value in old(buckets)[height])
      ensures buckets == InsertInto(old(buckets), height, value)
    {
      InsertKeepsWellFormed(buckets, height, value);
      if height !in buckets {
        buckets := buckets[height := []];
      }
      var values := buckets[height];
      if value !in values {
        buckets := buckets[height := values + [value]];
        return true;
      }
      return false;
    }

    /** `remove` (lines 39-50): true iff `value` was at `height`. */
    method Remove(height: u64, value: T) returns (removed: bool)
      requires Valid()
      modifies this
      ensures Valid()
      ensures removed <==> height in old(buckets) && value in old(buckets)[height]
      ensures buckets == RemoveFrom(old(buckets), height, value)
    {
      RemoveKeepsWellFormed(buckets, height, value);
      if height in buckets {
        var bucket := buckets[height];
        var len := |bucket|;
        bucket := Without(bucket, value);
        buckets := buckets[height := bucket];
        removed := len != |bucket|;
        if bucket == [] {
          buckets := buckets - {height};
        }
        return removed;
      }
      return false;
    }
  }

  // ----- properties of the store -----

  lemma {:induction false} WithoutKeepsNoDuplicates<T(!new)>(s: seq<T>, value: T)
    requires NoDuplicates(s)
    ensures NoDuplicates(Without(s, value))
  {
    if s != [] {
      assert NoDuplicates(s[1..]) by {
        forall i, j | 0 <= i < j < |s[1..]|
          ensures s[1..][i] != s[1..][j]
        {
          assert s[1..][i] == s[i + 1] && s[1..][j] == s[j + 1];
        }
      }
      WithoutKeepsNoDuplicates(s[1..], value);
      assert s[0] !in s[1..];
    }
  }

  /** Insert keeps the buckets non-empty and duplicate-free. */
  lemma InsertKeepsWellFormed<T(!new)>(buckets: map<u64, seq<T>>, height: u64, value: T)
    requires WellFormed(buckets)
    ensures WellFormed(InsertInto(buckets, height, value))
  {
  }

  /** Remove keeps the buckets non-empty and duplicate-free. */
  lemma RemoveKeepsWellFormed<T(!new)>(buckets: map<u64, seq<T>>, height: u64, value: T)
    requires WellFormed(buckets)
    ensures WellFormed(RemoveFrom(buckets, height, value))
  {
    if height in buckets {
      WithoutKeepsNoDuplicates(buckets[height], value);
    }
  }

  /** In a duplicate-free bucket, `retain` removes exactly the one occurrence and keeps
      the order of the others. */
  lemma {:induction false} WithoutRemovesOne<T(!new)>(s: seq<T>, i: nat)
    requires NoDuplicates(s) && i < |s|
    ensures Without(s, s[i]) == s[..i] + s[i + 1..]
  {
    if i == 0 {
      assert s[0] !in s[1..];
      WithoutAbsent(s[1..], s[0]);
    } else {
      assert NoDuplicates(s[1..]) by {
        forall a, b | 0 <= a < b < |s[1..]|
          ensures s[1..][a] != s[1..][b]
        {
          assert s[1..][a] == s[a + 1] && s[1..][b] == s[b + 1];
        }
      }
      assert s[1..][i - 1] == s[i];
      WithoutRemovesOne(s[1..], i - 1);
      assert s[..i] + s[i + 1..] == [s[0]] + (s[1..][..i - 1] + s[1..][i..]);
    }
  }

  /** `retain` of an absent value changes nothing. */
  lemma {:induction false} WithoutAbsent<T(!new)>(s: seq<T>, value: T)
    requires value !in s
    ensures Without(s, value) == s
  {
    if s != [] {
      assert value !in s[1..];
      WithoutAbsent(s[1..], value);
      assert [s[0]] + s[1..] == s;
    }
  }

  /** Removing a value that is not at `height` leaves a well-formed store unchanged. */
  lemma RemoveAbsentChangesNothing<T(!new)>(buckets: map<u64, seq<T>>, height: u64, value: T)
    requires WellFormed(buckets)
    requires !(height in buckets && value in buckets[height])
    ensures RemoveFrom(buckets, height, value) == buckets
  {
    if height in buckets {
      WithoutAbsent(buckets[height], value);
      assert buckets[height := buckets[height]] == buckets;
    }
  }

  /** `retain` undoes a `push` of a fresh value. */
  lemma {:induction false} WithoutUndoesPush<T(!new)>(s: seq<T>, value: T)
    requires value !in s
    ensures Without(s + [value], value) == s
  {
    if s != [] {
      assert (s + [value])[1..] == s[1..] + [value];
      WithoutUndoesPush(s[1..], value);
      assert [s[0]] + s[1..] == s;
    }
  }

  /** Inserting a fresh value and removing it again restores the store exactly, deleting
      the bucket the insert created. */
  lemma InsertRemoveRoundTrip<T(!new)>(buckets: map<u64, seq<T>>, height: u64, value: T)
    requires WellFormed(buckets)
    requires !(height in buckets && value in buckets[height])
    ensures RemoveFrom(InsertInto(buckets, height, value), height, value) == buckets
  {
    var values := if height in buckets then buckets[height] else [];
    WithoutUndoesPush(values, value);
    if height !in buckets {
      assert InsertInto(buckets, height, value) - {height} == buckets;
    } else {
      assert InsertInto(buckets, height, value)[height := values] == buckets;
    }
  }

  // ----- the two indexes of the pool -----

  /** The messages the pool indexes, by the height each is filed under: a notarization
      share at `artifact.height`, a block proposal at `artifact.content.value.height`. */
  datatype IndexedMessage = NotarizationShareAt(height: u64) | BlockProposalAt(blockHeight: u64)

  class Indexes {
    const notarizationShare: HeightIndex<CryptoHash>
    const blockProposal: HeightIndex<CryptoHash>

    ghost predicate Valid()
      reads this, notarizationShare, blockProposal
    {
      && notarizationShare != blockProposal
      && notarizationShare.Valid() && blockProposal.Valid()
    }

    constructor()
      ensures Valid()
      ensures fresh(notarizationShare) && fresh(blockProposal)
      ensures notarizationShare.buckets == map[] && blockProposal.buckets == map[]
    {
      notarizationShare := new HeightIndex();
      blockProposal := new HeightIndex();
    }

    /** `Indexes::insert` (lines 67-77): files `hash` in the index of the message's kind. */
    method Insert(msg: IndexedMessage, hash: CryptoHash)
      requires Valid()
      modifies notarizationShare, blockProposal
      ensures Valid()
      ensures msg.NotarizationShareAt? ==>
                && notarizationShare.buckets == InsertInto(old(notarizationShare.buckets), msg.height, hash)
                && blockProposal.buckets == old(blockProposal.buckets)
      ensures msg.BlockProposalAt? ==>
                && blockProposal.buckets == InsertInto(old(blockProposal.buckets), msg.blockHeight, hash)
                && notarizationShare.buckets == old(notarizationShare.buckets)
    {
      match msg
      case NotarizationShareAt(height) =>
        var _ := notarizationShare.Insert(height, hash);
      case BlockProposalAt(height) =>
        var _ := blockProposal.Insert(height, hash);
    }

    /** `Indexes::remove` (lines 79-88): drops `hash` from the index of the message's kind. */
    method Remove(msg: IndexedMessage, hash: CryptoHash)
      requires Valid()
      modifies notarizationShare, blockProposal
      ensures Valid()
      ensures msg.NotarizationShareAt? ==>
                && notarizationShare.buckets == RemoveFrom(old(notarizationShare.buckets), msg.height, hash)
                && blockProposal.buckets == old(blockProposal.buckets)
      ensures msg.BlockProposalAt? ==>
                && blockProposal.buckets == RemoveFrom(old(blockProposal.buckets), msg.blockHeight, hash)
                && notarizationShare.buckets == old(notarizationShare.buckets)
    {
      match msg
      case NotarizationShareAt(height) =>
        var _ := notarizationShare.Remove(height, hash);
      case BlockProposalAt(height) =>
        var _ := blockProposal.Remove(height, hash);
    }
  }
}
