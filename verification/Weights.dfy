/** Sums of per-vertex weights over finite sets of vertices. */
module Weights {

  function At(w: seq<nat>, v: nat): nat {
    if v < |w| then w[v] else 0
  }

  ghost function Weight(w: seq<nat>, s: set<nat>): nat {
    if s == {} then 0 else
    var v :| v in s;
    At(w, v) + Weight(w, s - {v})
  }

  lemma {:induction false} WeightSplit(w: seq<nat>, s: set<nat>, v: nat)
    requires v in s
    ensures Weight(w, s) == At(w, v) + Weight(w, s - {v})
  {
    var u :| u in s && Weight(w, s) == At(w, u) + Weight(w, s - {u});
    if u != v {
      WeightSplit(w, s - {u}, v);
      WeightSplit(w, s - {v}, u);
      assert s - {u} - {v} == s - {v} - {u};
    }
  }

  lemma WeightAdd(w: seq<nat>, s: set<nat>, v: nat)
    requires v !in s
    ensures Weight(w, s + {v}) == Weight(w, s) + At(w, v)
  {
    WeightSplit(w, s + {v}, v);
    assert s + {v} - {v} == s;
  }

  lemma {:induction false} WeightUnion(w: seq<nat>, s: set<nat>, t: set<nat>)
    requires s !! t
    ensures Weight(w, s + t) == Weight(w, s) + Weight(w, t)
  {
    if t == {} {
      assert s + t == s;
    } else {
      var v :| v in t;
      WeightUnion(w, s, t - {v});
      WeightSplit(w, t, v);
      WeightSplit(w, s + t, v);
      assert s + t - {v} == s + (t - {v});
    }
  }

  lemma {:induction false} WeightSame(w: seq<nat>, w': seq<nat>, s: set<nat>)
    requires forall v | v in s :: At(w, v) == At(w', v)
    ensures Weight(w, s) == Weight(w', s)
  {
    if s != {} {
      var v :| v in s;
      WeightSame(w, w', s - {v});
      WeightSplit(w, s, v);
      WeightSplit(w', s, v);
    }
  }

  lemma {:induction false} WeightOfOnes(w: seq<nat>, s: set<nat>)
    requires forall v | v in s :: At(w, v) == 1
    ensures Weight(w, s) == |s|
  {
    if s != {} {
      var v :| v in s;
      WeightOfOnes(w, s - {v});
      WeightSplit(w, s, v);
    }
  }
}
