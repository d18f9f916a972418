/** Locating the existing EFI System Partition (`find_esp`).

    The `gpt` crate hands out the partitions as a `BTreeMap`, whose iteration
    visits the indices in ascending order. `find_esp` keeps the indices whose
    entry carries the ESP type GUID, collects them in that order and takes
    element 0; with no match, `swap_remove(0)` panics, which the model
    reports as `None`.
 */
module EspLocator {
  import opened GptTable

  ghost predicate Increasing(ks: seq<nat>)
  {
    forall i, j :: 0 <= i < j < |ks| ==> ks[i] < ks[j]
  }

  predicate IsEsp(e: Entry)
  {
    e.typeGuid == ESP_GUID
  }

  lemma {:induction false} MinExists(s: set<nat>)
    requires s != {}
    ensures exists m :: m in s && forall k :: k in s ==> m <= k
    decreases |s|
  {
    var x :| x in s;
    if !forall k :: k in s ==> x <= k {
      var y :| y in s && y < x;
      var rest := s - {x};
      assert y in rest;
      MinExists(rest);
      var m :| m in rest && forall k :: k in rest ==> m <= k;
      forall k | k in s ensures m <= k {
        if k != x {
          assert k in rest;
        }
      }
      assert m in s;
    }
  }

  /** The smallest index of a non-empty index set. */
  function MinIndex(s: set<nat>): (m: nat)
    requires s != {}
    ensures m in s && forall k :: k in s ==> m <= k
  {
    MinExists(s);
    var m :| m in s && forall k :: k in s ==> m <= k;
    m
  }

  /** The indices of `t` in the order a `BTreeMap` iterates over them. */
  function AscendingIndices(t: Table): (ks: seq<nat>)
    ensures Increasing(ks)
    ensures forall k :: k in ks <==> k in t
    decreases |t|
  {
    if |t| == 0 then []
    else
      var m := MinIndex(t.Keys);
      var rest := AscendingIndices(t - {m});
      assert forall k :: k in rest ==> m < k;
      [m] + rest
  }

  /** The `filter` step: the indices of `ks`, in order, whose entry is an ESP. */
  function EspIndicesAmong(ks: seq<nat>, t: Table): (es: seq<nat>)
    requires forall k :: k in ks ==> k in t
    ensures forall k :: k in es <==> k in ks && IsEsp(t[k])
    ensures Increasing(ks) ==> Increasing(es)
    decreases |ks|
  {
    if |ks| == 0 then []
    else
      var rest := EspIndicesAmong(ks[1..], t);
      assert Increasing(ks) ==> Increasing([ks[0]] + rest) by {
        if Increasing(ks) {
          assert Increasing(ks[1..]);
          forall k | k in rest ensures ks[0] < k {
            var j :| 0 <= j < |ks[1..]| && ks[1..][j] == k;
            assert ks[j + 1] == k;
          }
          forall i, j | 0 <= i < j < |[ks[0]] + rest|
            ensures ([ks[0]] + rest)[i] < ([ks[0]] + rest)[j]
          {
            assert ([ks[0]] + rest)[j] == rest[j - 1];
            if i > 0 {
              assert ([ks[0]] + rest)[i] == rest[i - 1];
              assert rest[i - 1] < rest[j - 1];
            } else {
              assert rest[j - 1] in rest;
            }
          }
        }
      }
      if IsEsp(t[ks[0]]) then [ks[0]] + rest else rest
  }

  /** `find_esp`: the smallest index whose entry has the ESP type GUID, or
      `None` (the panic of `swap_remove(0)`) when there is none. */
  function FindEsp(t: Table): (r: Option<nat>)
    ensures r.None? <==> forall i :: i in t ==> !IsEsp(t[i])
    ensures r.Some? ==> r.value in t && IsEsp(t[r.value])
    ensures r.Some? ==> forall i :: i in t && IsEsp(t[i]) ==> r.value <= i
  {
    var ks := AscendingIndices(t);
    var es := EspIndicesAmong(ks, t);
    if |es| == 0 then
      assert forall i :: i in t ==> !IsEsp(t[i]) by {
        forall i | i in t ensures !IsEsp(t[i]) {
          assert i in ks && i !in es;
        }
      }
      None
    else
      assert es[0] in es;
      assert es[0] in t && IsEsp(t[es[0]]);
      assert forall k :: k in es ==> es[0] <= k by {
        forall k | k in es ensures es[0] <= k {
          var j :| 0 <= j < |es| && es[j] == k;
        }
      }
      Some(es[0])
  }

  /** A table with exactly one ESP-typed entry yields that entry's index. */
  lemma FindEspSingle(t: Table, i: nat)
    requires i in t && IsEsp(t[i])
    requires forall j :: j in t && j != i ==> !IsEsp(t[j])
    ensures FindEsp(t) == Some(i)
  {
  }

  /** Adding an entry that is not ESP-typed under an unused index leaves the
      answer of `find_esp` as it was. */
  lemma FindEspIgnoresOtherTypes(t: Table, k: nat, e: Entry)
    requires k !in t && !IsEsp(e)
    ensures FindEsp(t[k := e]) == FindEsp(t)
  {
    var t' := t[k := e];
    if FindEsp(t).Some? {
      var i := FindEsp(t).value;
      assert i in t' && IsEsp(t'[i]);
      assert FindEsp(t').Some?;
      var i' := FindEsp(t').value;
      assert i' in t && IsEsp(t[i']);
    } else {
      forall j | j in t' ensures !IsEsp(t'[j]) {
        if j != k {
          assert j in t;
        }
      }
    }
  }
}
