/** The loop that copies an edit of a locally added row into the row's record, one changed key at a time. */
module KeyLoop {
  import opened TableTypes

  datatype LoopState = LoopState(keys: seq<string>, record: Fields)

  /** One pass: a key that the record has is copied and taken off the list; any other key stays first. */
  function Pass(s: LoopState, changes: Fields): LoopState
    requires forall k :: 0 <= k < |s.keys| ==> s.keys[k] in changes
  {
    if s.keys != [] && s.keys[0] in s.record then
      LoopState(s.keys[1..], s.record[s.keys[0] := changes[s.keys[0]]])
    else s
  }

  function Passes(s: LoopState, changes: Fields, n: nat): (r: LoopState)
    requires forall k :: 0 <= k < |s.keys| ==> s.keys[k] in changes
    ensures forall k :: 0 <= k < |r.keys| ==> r.keys[k] in changes
    ensures r.record.Keys == s.record.Keys
  {
    if n == 0 then s else Pass(Passes(s, changes, n - 1), changes)
  }

  /** A list of exactly the keys of a change map. */
  ghost predicate Lists(keys: seq<string>, changes: Fields) {
    forall key :: key in keys <==> key in changes
  }

  lemma {:induction false} PassesTake(s: LoopState, changes: Fields, n: nat)
    requires Lists(s.keys, changes) && n <= |s.keys| && changes.Keys <= s.record.Keys
    ensures Passes(s, changes, n).keys == s.keys[n..]
  {
    if n > 0 {
      PassesTake(s, changes, n - 1);
      var before := Passes(s, changes, n - 1);
      assert before.keys[0] in changes;
    }
  }

  /** What one more pass copies. */
  lemma {:induction false} OneMore(s: LoopState, changes: Fields, n: nat)
    requires Lists(s.keys, changes) && 0 < n <= |s.keys| && changes.Keys <= s.record.Keys
    ensures s.keys[n - 1] in changes
    ensures Passes(s, changes, n).record == Passes(s, changes, n - 1).record[s.keys[n - 1] := changes[s.keys[n - 1]]]
  {
    PassesTake(s, changes, n - 1);
    assert Passes(s, changes, n - 1).keys[0] == s.keys[n - 1];
  }

  lemma {:induction false} PassesCopy(s: LoopState, changes: Fields, n: nat, i: nat)
    requires Lists(s.keys, changes) && i < n <= |s.keys| && changes.Keys <= s.record.Keys
    ensures s.keys[i] in changes && Passes(s, changes, n).record[s.keys[i]] == changes[s.keys[i]]
  {
    OneMore(s, changes, n);
    if i < n - 1 {
      PassesCopy(s, changes, n - 1, i);
    }
  }

  lemma {:induction false} PassesKeepOthers(s: LoopState, changes: Fields, n: nat, key: string)
    requires Lists(s.keys, changes) && n <= |s.keys| && changes.Keys <= s.record.Keys
    requires key in s.record && key !in changes
    ensures Passes(s, changes, n).record[key] == s.record[key]
  {
    if n > 0 {
      OneMore(s, changes, n);
      PassesKeepOthers(s, changes, n - 1, key);
    }
  }

  lemma {:induction false} PassesKeepAbsent(s: LoopState, changes: Fields, n: nat, key: string)
    requires Lists(s.keys, changes) && key in changes && key !in s.record
    ensures key in Passes(s, changes, n).keys
  {
    if n > 0 {
      PassesKeepAbsent(s, changes, n - 1, key);
    }
  }

  /** The loop ends exactly when the record has every changed key; then the record is the old one overridden
      by the changes. Otherwise no number of passes empties the list. */
  lemma {:induction false} LoopEnds(s: LoopState, changes: Fields)
    requires Lists(s.keys, changes)
    ensures (exists n: nat :: Passes(s, changes, n).keys == []) <==> changes.Keys <= s.record.Keys
    ensures changes.Keys <= s.record.Keys ==>
      Passes(s, changes, |s.keys|) == LoopState([], s.record + changes)
  {
    if changes.Keys <= s.record.Keys {
      PassesTake(s, changes, |s.keys|);
      var r := Passes(s, changes, |s.keys|);
      forall key | key in s.record ensures r.record[key] == (s.record + changes)[key] {
        if key in changes {
          var i :| 0 <= i < |s.keys| && s.keys[i] == key;
          PassesCopy(s, changes, |s.keys|, i);
        } else {
          PassesKeepOthers(s, changes, |s.keys|, key);
        }
      }
      assert r.keys == [] && r.record == s.record + changes;
    } else {
      var key :| key in changes && key !in s.record;
      forall n: nat ensures Passes(s, changes, n).keys != [] {
        PassesKeepAbsent(s, changes, n, key);
      }
    }
  }
}
