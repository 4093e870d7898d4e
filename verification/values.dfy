/** Search values: the integers extended with the two infinities the agent
    uses as its initial best values and as the scores of won boards.
 */
module Values {

  /** An optional result; `None` is the agent's "no column". */
  datatype Option<+T> = None | Some(value: T)

  /** An integer, or one of the two infinities. */
  datatype Value = NegInf | Fin(n: int) | PosInf

  /** The total order on values: NegInf below every integer, PosInf above. */
  predicate Le(a: Value, b: Value)
  {
    a.NegInf? || b.PosInf? || (a.Fin? && b.Fin? && a.n <= b.n)
  }

  predicate Lt(a: Value, b: Value)
  {
    !Le(b, a)
  }

  /** The larger of two values (used to raise alpha). */
  function Max(a: Value, b: Value): (r: Value)
    ensures Le(a, r) && Le(b, r)
    ensures r == a || r == b
  {
    if Le(b, a) then a else b
  }

  /** The smaller of two values (used to lower beta). */
  function Min(a: Value, b: Value): (r: Value)
    ensures Le(r, a) && Le(r, b)
    ensures r == a || r == b
  {
    if Le(a, b) then a else b
  }

  /** The value a maximizing (resp. minimizing) scan starts from. */
  function Init(maximizing: bool): Value
  {
    if maximizing then NegInf else PosInf
  }

  /** `x` is strictly better than `y` for the side that is maximizing or not. */
  predicate Improves(x: Value, y: Value, maximizing: bool)
  {
    if maximizing then Lt(y, x) else Lt(x, y)
  }

  /** `x` is at least as good as `y` for that side. */
  predicate NoWorse(x: Value, y: Value, maximizing: bool)
  {
    if maximizing then Le(y, x) else Le(x, y)
  }

  /** The maximum (or minimum) of a sequence; the initial infinity when it is
      empty. Its properties are the lemmas below, so that a proof sees them
      only where it asks for them. */
  function Extreme(s: seq<Value>, maximizing: bool): Value
  {
    if |s| == 0 then Init(maximizing)
    else
      var e := Extreme(s[..|s| - 1], maximizing);
      if maximizing then Max(e, s[|s| - 1]) else Min(e, s[|s| - 1])
  }

  /** The extreme is no worse than any element. */
  lemma {:induction false} ExtremeBounds(s: seq<Value>, maximizing: bool, i: nat)
    requires i < |s|
    ensures NoWorse(Extreme(s, maximizing), s[i], maximizing)
  {
    if i < |s| - 1 {
      ExtremeBounds(s[..|s| - 1], maximizing, i);
    }
  }

  /** The extreme of a non-empty sequence is one of its elements. */
  lemma {:induction false} ExtremeAttained(s: seq<Value>, maximizing: bool) returns (i: nat)
    requires |s| > 0
    ensures i < |s| && s[i] == Extreme(s, maximizing)
  {
    if |s| == 1 || Extreme(s, maximizing) == s[|s| - 1] {
      i := |s| - 1;
    } else {
      i := ExtremeAttained(s[..|s| - 1], maximizing);
    }
  }

  /** A value no worse than every element is no worse than their extreme. */
  lemma {:induction false} ExtremeBoundedBy(s: seq<Value>, maximizing: bool, x: Value)
    requires forall i :: 0 <= i < |s| ==> NoWorse(x, s[i], maximizing)
    ensures NoWorse(x, Extreme(s, maximizing), maximizing)
  {
    if |s| > 0 {
      var i := ExtremeAttained(s, maximizing);
    }
  }

  /** The index an unpruned scan picks: starting from the initial infinity, it
      moves to an element only when that element is strictly better than the
      best seen so far, so the first of several equal extremes is kept. None
      means that no element beat the initial infinity. */
  function ArgBest(s: seq<Value>, maximizing: bool): (r: Option<nat>)
    ensures r.None? ==> forall i :: 0 <= i < |s| ==> s[i] == Init(maximizing)
    ensures r.Some? ==> r.value < |s| && s[r.value] != Init(maximizing)
    ensures r.Some? ==> forall i :: 0 <= i < |s| ==> NoWorse(s[r.value], s[i], maximizing)
    ensures r.Some? ==> forall i :: 0 <= i < r.value ==> Improves(s[r.value], s[i], maximizing)
  {
    if |s| == 0 then None
    else
      var p := ArgBest(s[..|s| - 1], maximizing);
      var best := if p.None? then Init(maximizing) else s[p.value];
      if Improves(s[|s| - 1], best, maximizing) then Some(|s| - 1) else p
  }

  /** The unpruned scan picks nothing exactly when the extreme is the initial
      infinity, and otherwise picks an index holding the extreme. */
  lemma {:induction false} ArgBestIsExtreme(s: seq<Value>, maximizing: bool)
    ensures ArgBest(s, maximizing).None? <==> Extreme(s, maximizing) == Init(maximizing)
    ensures ArgBest(s, maximizing).Some? ==> s[ArgBest(s, maximizing).value] == Extreme(s, maximizing)
  {
    var r := ArgBest(s, maximizing);
    if |s| > 0 {
      var i := ExtremeAttained(s, maximizing);
      if r.Some? {
        ExtremeBounds(s, maximizing, r.value);
      }
    }
  }

  /** An index holding the extreme, other than the initial infinity, with every
      earlier element strictly worse is exactly the one `ArgBest` returns. */
  lemma FirstExtremeUnique(s: seq<Value>, maximizing: bool, j: nat)
    requires j < |s| && s[j] == Extreme(s, maximizing) && s[j] != Init(maximizing)
    requires forall i :: 0 <= i < j ==> Improves(s[j], s[i], maximizing)
    ensures ArgBest(s, maximizing) == Some(j)
  {
    ArgBestIsExtreme(s, maximizing);
    var r := ArgBest(s, maximizing);
    if r.None? {
      assert false;
    }
    var k := r.value;
    if k < j {
      assert false;
    } else if j < k {
      assert false;
    }
  }
}
