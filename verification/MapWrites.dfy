/** Loops that fill a map from a list, some entries skipped and later entries overwriting
    earlier ones: what map they leave behind. */
module MapWrites {
  import opened Sequences

  /** The map left by a list of writes; None is an iteration that writes nothing. */
  function Replay<K, V>(writes: seq<Option<(K, V)>>): map<K, V> {
    if writes == [] then map[]
    else
      var before := Replay(writes[..|writes| - 1]);
      match writes[|writes| - 1]
      case None => before
      case Some(w) => before[w.0 := w.1]
  }

  predicate WritesTo<K(==), V>(writes: seq<Option<(K, V)>>, i: nat, key: K)
    requires i < |writes|
  {
    writes[i].Some? && writes[i].value.0 == key
  }

  /** i is the last write to the key. */
  ghost predicate LastWrite<K, V>(writes: seq<Option<(K, V)>>, i: nat, key: K) {
    && i < |writes|
    && WritesTo(writes, i, key)
    && forall j | i < j < |writes| :: !WritesTo(writes, j, key)
  }

  lemma {:induction false} LastWriteValue<K, V>(writes: seq<Option<(K, V)>>, i: nat, key: K)
    requires LastWrite(writes, i, key)
    ensures key in Replay(writes) && Replay(writes)[key] == writes[i].value.1
  {
    var n := |writes| - 1;
    if i < n {
      var prefix := writes[..n];
      assert forall j | 0 <= j < n :: WritesTo(writes, j, key) == WritesTo(prefix, j, key);
      assert LastWrite(prefix, i, key);
      LastWriteValue(prefix, i, key);
      assert !WritesTo(writes, n, key);
    }
  }

  lemma {:induction false} FindLastWrite<K, V>(writes: seq<Option<(K, V)>>, i: nat, key: K) returns (last: nat)
    requires i < |writes| && WritesTo(writes, i, key)
    ensures LastWrite(writes, last, key)
    decreases |writes| - i
  {
    if j :| i < j < |writes| && WritesTo(writes, j, key) {
      last := FindLastWrite(writes, j, key);
    } else {
      last := i;
    }
  }

  lemma {:induction false} KeysAreWritten<K, V>(writes: seq<Option<(K, V)>>, key: K) returns (i: nat)
    requires key in Replay(writes)
    ensures i < |writes| && WritesTo(writes, i, key)
  {
    i := |writes| - 1;
    if !WritesTo(writes, i, key) {
      var prefix := writes[..i];
      var k := KeysAreWritten(prefix, key);
      assert writes[k] == prefix[k];
      i := k;
    }
  }

  /** A key is present exactly when some entry writes it, and holds what its last write put. */
  lemma LastWriteWins<K, V>(writes: seq<Option<(K, V)>>, key: K)
    ensures key in Replay(writes) <==> exists i | 0 <= i < |writes| :: WritesTo(writes, i, key)
    ensures key in Replay(writes) <==> exists i: nat :: LastWrite(writes, i, key)
    ensures forall i: nat | LastWrite(writes, i, key) :: key in Replay(writes) && Replay(writes)[key] == writes[i].value.1
  {
    forall i: nat | LastWrite(writes, i, key) ensures key in Replay(writes) && Replay(writes)[key] == writes[i].value.1 {
      LastWriteValue(writes, i, key);
    }
    if key in Replay(writes) {
      var i := KeysAreWritten(writes, key);
      var last := FindLastWrite(writes, i, key);
    }
    if i :| 0 <= i < |writes| && WritesTo(writes, i, key) {
      var last := FindLastWrite(writes, i, key);
    }
  }

  lemma ReplayStep<K, V>(writes: seq<Option<(K, V)>>, w: Option<(K, V)>)
    ensures Replay(writes + [w]) == match w case None => Replay(writes) case Some(e) => Replay(writes)[e.0 := e.1]
  {
    assert (writes + [w])[..|writes|] == writes;
  }
}
