/** The event's button array: a map from key to button, written entry by entry. */
module ButtonMap {
  import opened Wrappers
  import opened Buttons

  /** A button together with the key it is stored under. */
  type Entry = (string, Button)

  /** The keys a sequence of writes touches. */
  function Written(es: seq<Entry>): set<string> {
    set i | 0 <= i < |es| :: es[i].0
  }

  lemma WrittenSnoc(init: seq<Entry>, e: Entry)
    ensures Written(init + [e]) == Written(init) + {e.0}
  {
    var es := init + [e];
    forall k | k in Written(es)
      ensures k in Written(init) + {e.0}
    {
      var i :| 0 <= i < |es| && es[i].0 == k;
      if i < |init| {
        assert init[i] == es[i];
      }
    }
    forall k | k in Written(init) + {e.0}
      ensures k in Written(es)
    {
      if k == e.0 {
        assert es[|init|] == e;
      } else {
        var i :| 0 <= i < |init| && init[i].0 == k;
        assert es[i] == init[i];
      }
    }
  }

  /** `es[i]` is the last write to its key. */
  predicate LastWrite(es: seq<Entry>, i: int)
    requires 0 <= i < |es|
  {
    forall j :: i < j < |es| ==> es[j].0 != es[i].0
  }

  /** The button last written under `k`, if any. */
  function Latest(es: seq<Entry>, k: string): (r: Option<Button>)
    ensures r.Some? <==> k in Written(es)
    ensures r.Some? ==> exists i :: 0 <= i < |es| && es[i] == (k, r.value) && LastWrite(es, i)
    decreases |es|
  {
    if |es| == 0 then None
    else
      var n := |es| - 1;
      if es[n].0 == k then Some(es[n].1)
      else
        var r := Latest(es[..n], k);
        assert es == es[..n] + [es[n]];
        WrittenSnoc(es[..n], es[n]);
        assert r.Some? ==> exists i :: 0 <= i < |es| && es[i] == (k, r.value) && LastWrite(es, i) by {
          if r.Some? {
            var i :| 0 <= i < n && es[..n][i] == (k, r.value) && LastWrite(es[..n], i);
            assert es[i] == es[..n][i];
            assert LastWrite(es, i);
          }
        }
        r
  }

  /** Reference for a run of writes: a key written at all holds the value written to it
      last, every other key keeps its value. */
  function Overlay(m: map<string, Button>, es: seq<Entry>): (r: map<string, Button>)
    ensures r.Keys == m.Keys + Written(es)
  {
    map k | k in m.Keys + Written(es) :: if Latest(es, k).Some? then Latest(es, k).value else m[k]
  }

  /** What the reference promises about each key. */
  lemma OverlayValues(m: map<string, Button>, es: seq<Entry>)
    ensures forall k :: k in m && k !in Written(es) ==> Overlay(m, es)[k] == m[k]
    ensures forall i :: 0 <= i < |es| && LastWrite(es, i) ==> Overlay(m, es)[es[i].0] == es[i].1
    ensures forall k :: k in Written(es) ==> exists i :: 0 <= i < |es| && es[i] == (k, Overlay(m, es)[k])
  {
    var r := Overlay(m, es);
    forall i | 0 <= i < |es| && LastWrite(es, i)
      ensures r[es[i].0] == es[i].1
    {
      assert es[i].0 in Written(es);
      var j :| 0 <= j < |es| && es[j] == (es[i].0, Latest(es, es[i].0).value) && LastWrite(es, j);
      assert !(i < j) && !(j < i);
    }
  }

  /** The writes performed one after another, as `$buttons[$key] = $button` in a loop. */
  function Store(m: map<string, Button>, es: seq<Entry>): map<string, Button>
    decreases |es|
  {
    if |es| == 0 then m else Store(m[es[0].0 := es[0].1], es[1..])
  }

  lemma {:induction false} StoreSnoc(m: map<string, Button>, es: seq<Entry>, e: Entry)
    ensures Store(m, es + [e]) == Store(m, es)[e.0 := e.1]
    decreases |es|
  {
    if |es| == 0 {
      assert es + [e] == [e];
      assert Store(m, [e]) == Store(m[e.0 := e.1], []);
    } else {
      assert (es + [e])[0] == es[0];
      assert (es + [e])[1..] == es[1..] + [e];
      StoreSnoc(m[es[0].0 := es[0].1], es[1..], e);
    }
  }

  lemma OverlaySnoc(m: map<string, Button>, init: seq<Entry>, e: Entry)
    ensures Overlay(m, init + [e]) == Overlay(m, init)[e.0 := e.1]
  {
    var es := init + [e];
    var n := |init|;
    assert es[..n] == init;
    WrittenSnoc(init, e);
    var a := Overlay(m, es);
    var b := Overlay(m, init)[e.0 := e.1];
    assert a.Keys == b.Keys;
    forall k | k in a
      ensures a[k] == b[k]
    {
      assert Latest(es, k) == if k == e.0 then Some(e.1) else Latest(init, k);
    }
  }

  /** Writing entry by entry gives the reference result. */
  lemma {:induction false} StoreIsOverlay(m: map<string, Button>, es: seq<Entry>)
    ensures Store(m, es) == Overlay(m, es)
    decreases |es|
  {
    if |es| == 0 {
      assert Written(es) == {};
      assert Overlay(m, es) == m;
    } else {
      var n := |es| - 1;
      var init := es[..n];
      assert es == init + [es[n]];
      StoreSnoc(m, init, es[n]);
      StoreIsOverlay(m, init);
      OverlaySnoc(m, init, es[n]);
    }
  }

  /** Writing the same run twice is the same as writing it once. */
  lemma StoreTwice(m: map<string, Button>, es: seq<Entry>)
    ensures Store(Store(m, es), es) == Store(m, es)
  {
    var once := Store(m, es);
    StoreIsOverlay(m, es);
    StoreIsOverlay(once, es);
    var twice := Overlay(once, es);
    forall k | k in twice
      ensures k in once && twice[k] == once[k]
    {
    }
    assert twice == once;
  }
}
