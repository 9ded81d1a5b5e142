/** The route a page was requested under: its symbolic name and its parameters, in the
    order the router supplied them (the order matters, because button keys spell the
    parameters out one after another). */
module Routes {
  import opened Wrappers

  /** Route parameters as (name, value) pairs in iteration order. */
  type Params = seq<(string, string)>

  datatype RouteContext = RouteContext(name: string, params: Params)

  /** The value bound to parameter `p`, if any (the first binding, should there be several). */
  function Lookup(ps: Params, p: string): (r: Option<string>)
    ensures r.None? <==> forall i :: 0 <= i < |ps| ==> ps[i].0 != p
    ensures r.Some? ==> exists i :: 0 <= i < |ps| && ps[i] == (p, r.value)
    decreases |ps|
  {
    if |ps| == 0 then None
    else if ps[0].0 == p then Some(ps[0].1)
    else
      var r := Lookup(ps[1..], p);
      assert r.Some? ==> exists i :: 1 <= i < |ps| && ps[i] == (p, r.value) by {
        if r.Some? {
          var j :| 0 <= j < |ps[1..]| && ps[1..][j] == (p, r.value);
          assert ps[j + 1] == (p, r.value);
        }
      }
      r
  }

  /** Binding more parameters after the existing ones never changes a parameter that
      was already bound. */
  lemma {:induction false} LookupExtended(ps: Params, extra: Params, p: string)
    requires Lookup(ps, p).Some?
    ensures Lookup(ps + extra, p) == Lookup(ps, p)
    decreases |ps|
  {
    assert (ps + extra)[0] == ps[0];
    if ps[0].0 != p {
      assert (ps + extra)[1..] == ps[1..] + extra;
      LookupExtended(ps[1..], extra, p);
    }
  }

  /** Every parameter name followed by its value, in order, with no separators. */
  function ParamsText(ps: Params): string
    decreases |ps|
  {
    if |ps| == 0 then "" else ps[0].0 + ps[0].1 + ParamsText(ps[1..])
  }

  /** The text grows at its end, one parameter at a time, as the loop in `generateButtonKey` appends. */
  lemma {:induction false} ParamsTextAppend(ps: Params, p: string, v: string)
    ensures ParamsText(ps + [(p, v)]) == ParamsText(ps) + p + v
    decreases |ps|
  {
    if |ps| == 0 {
      assert ps + [(p, v)] == [(p, v)];
      assert ParamsText([(p, v)]) == p + v + ParamsText([]);
    } else {
      var qs := ps + [(p, v)];
      assert qs[0] == ps[0];
      assert qs[1..] == ps[1..] + [(p, v)];
      ParamsTextAppend(ps[1..], p, v);
      var head := ps[0].0 + ps[0].1;
      var t := ParamsText(ps[1..]);
      calc {
        ParamsText(qs);
        head + ParamsText(qs[1..]);
        head + (t + p + v);
        { Regroup(head, t, p, v); }
        head + t + p + v;
        ParamsText(ps) + p + v;
      }
    }
  }

  lemma Regroup(a: string, b: string, c: string, d: string)
    ensures a + (b + c + d) == a + b + c + d
  {
  }
}
