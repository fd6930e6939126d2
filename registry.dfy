/** The observer registry of the messenger: a JavaScript `Set` of handler
    functions, modelled as a duplicate-free sequence of handler identities
    kept in insertion order (the order in which a `Set` iterates). */
module Registry {

  /** The identity of a handler function (JavaScript compares functions by reference). */
  type HandlerId = nat

  /** No handler occurs twice. */
  predicate Distinct(s: seq<HandlerId>)
  {
    forall i, j :: 0 <= i < j < |s| ==> s[i] != s[j]
  }

  /** `Set.prototype.add`: a new handler goes to the end, a present one changes nothing. */
  function Added(s: seq<HandlerId>, h: HandlerId): (r: seq<HandlerId>)
    ensures forall x :: x in r <==> x in s || x == h
    ensures |s| <= |r| && r[..|s|] == s
    ensures |r| == if h in s then |s| else |s| + 1
    ensures h in s ==> r == s
    ensures Distinct(s) ==> Distinct(r)
  {
    if h in s then s else s + [h]
  }

  /** `Set.prototype.delete`: every occurrence of `h` goes, the rest keep their order. */
  function Removed(s: seq<HandlerId>, h: HandlerId): (r: seq<HandlerId>)
    ensures forall x :: x in r <==> x in s && x != h
    ensures |r| <= |s|
    ensures h !in s ==> r == s
    ensures Distinct(s) ==> Distinct(r)
    ensures Distinct(s) && h in s ==> |r| == |s| - 1
  {
    if |s| == 0 then []
    else
      DistinctTail(s);
      if s[0] == h then Removed(s[1..], h) else [s[0]] + Removed(s[1..], h)
  }

  /** Helper: the tail of a duplicate-free sequence is duplicate-free and lacks the head. */
  lemma DistinctTail(s: seq<HandlerId>)
    requires |s| > 0
    ensures Distinct(s) ==> Distinct(s[1..]) && s[0] !in s[1..]
  {
    if Distinct(s) {
      forall a, b | 0 <= a < b < |s[1..]| ensures s[1..][a] != s[1..][b] {
        assert s[1..][a] == s[a + 1] && s[1..][b] == s[b + 1];
      }
      forall k | 0 <= k < |s[1..]| ensures s[1..][k] != s[0] {
        assert s[1..][k] == s[k + 1];
      }
    }
  }

  /** Removal distributes over concatenation. */
  lemma {:induction false} RemovedConcat(a: seq<HandlerId>, b: seq<HandlerId>, h: HandlerId)
    ensures Removed(a + b, h) == Removed(a, h) + Removed(b, h)
  {
    if |a| == 0 {
      assert a + b == b;
    } else {
      assert (a + b)[0] == a[0];
      assert (a + b)[1..] == a[1..] + b;
      RemovedConcat(a[1..], b, h);
    }
  }

  /** Removing `h` from a duplicate-free registry that holds it at index `i`
      cuts out exactly that entry. */
  lemma RemovedAt(s: seq<HandlerId>, h: HandlerId, i: nat)
    requires Distinct(s)
    requires i < |s| && s[i] == h
    ensures Removed(s, h) == s[..i] + s[i + 1..]
  {
    assert s == s[..i] + ([h] + s[i + 1..]);
    assert h !in s[..i];
    ghost var tail := s[i + 1..];
    assert h !in tail by {
      forall k | 0 <= k < |tail| ensures tail[k] != h {
        assert tail[k] == s[i + 1 + k];
      }
    }
    RemovedConcat(s[..i], [h] + s[i + 1..], h);
    RemovedConcat([h], s[i + 1..], h);
    assert Removed([h], h) == [];
  }

  /** Unsubscribing right after subscribing a new handler restores the registry. */
  lemma {:induction false} RemovedUndoesAdded(s: seq<HandlerId>, h: HandlerId)
    requires h !in s
    ensures Removed(Added(s, h), h) == s
  {
    RemovedConcat(s, [h], h);
    assert Removed([h], h) == [];
  }

  /** Calling an unsubscribe function a second time changes nothing. */
  lemma RemovedIdempotent(s: seq<HandlerId>, h: HandlerId)
    ensures Removed(Removed(s, h), h) == Removed(s, h)
  {
  }
}
