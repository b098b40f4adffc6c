/** A value that a JSON record may leave out (or set to null), and Python's
    truthiness of such optional strings. */
module Optional {
  import opened Sequences

  datatype Option<+T> = None | Some(value: T)

  /** Python truthiness of an optional string: present and non-empty. */
  predicate Truthy(x: Option<string>) {
    x.Some? && x.value != ""
  }

  /** Python's `or` fallback for a string-valued field: a missing, null or
      empty value is replaced by `default`. */
  function OrElse(x: Option<string>, default: string): (r: string)
    ensures Truthy(x) ==> r == x.value
    ensures !Truthy(x) ==> r == default
  {
    match x
    case Some(s) => if s != "" then s else default
    case None => default
  }

  function Lift(ws: seq<string>): (r: seq<Option<string>>)
    ensures |r| == |ws|
    ensures forall i :: 0 <= i < |ws| ==> r[i] == Some(ws[i])
  {
    seq(|ws|, i requires 0 <= i < |ws| => Some(ws[i]))
  }

  /** How many of `xs` are truthy. */
  function CountTruthy(xs: seq<Option<string>>): (n: nat)
    ensures n <= |xs|
  {
    if |xs| == 0 then 0 else (if Truthy(xs[0]) then 1 else 0) + CountTruthy(xs[1..])
  }

  /** A comprehension filtering optional strings by truthiness: the present,
      non-empty values, in their original order. */
  function KeepTruthy(xs: seq<Option<string>>): (ws: seq<string>)
    ensures |ws| == CountTruthy(xs)
    ensures forall i :: 0 <= i < |ws| ==> ws[i] != ""
  {
    if |xs| == 0 then []
    else (if Truthy(xs[0]) then [xs[0].value] else []) + KeepTruthy(xs[1..])
  }

  /** Nothing is merged: a truthy value at input position `k` is kept at
      output position "number of truthy values before `k`", so repeated
      values are kept as often as they occur. */
  lemma KeepTruthyPositions(xs: seq<Option<string>>)
    ensures forall k :: 0 <= k < |xs| && Truthy(xs[k]) ==>
              CountTruthy(xs[..k]) < |KeepTruthy(xs)| && KeepTruthy(xs)[CountTruthy(xs[..k])] == xs[k].value
  {
    forall k | 0 <= k < |xs| && Truthy(xs[k])
      ensures CountTruthy(xs[..k]) < |KeepTruthy(xs)| && KeepTruthy(xs)[CountTruthy(xs[..k])] == xs[k].value
    {
      KeepTruthyPosition(xs, k);
    }
  }

  /** The value at one truthy position `k`. */
  lemma {:induction false} KeepTruthyPosition(xs: seq<Option<string>>, k: nat)
    requires k < |xs| && Truthy(xs[k])
    ensures CountTruthy(xs[..k]) < |KeepTruthy(xs)| && KeepTruthy(xs)[CountTruthy(xs[..k])] == xs[k].value
  {
    var rest := KeepTruthy(xs[1..]);
    assert KeepTruthy(xs) == (if Truthy(xs[0]) then [xs[0].value] else []) + rest;
    if k == 0 {
      assert xs[..0] == [];
    } else {
      var c0 := if Truthy(xs[0]) then 1 else 0;
      KeepTruthyPosition(xs[1..], k - 1);
      assert xs[..k][1..] == xs[1..][..k - 1];
      assert xs[..k][0] == xs[0];
      assert CountTruthy(xs[..k]) == c0 + CountTruthy(xs[1..][..k - 1]);
      assert xs[1..][k - 1] == xs[k];
    }
  }

  /** Every kept value occurs in the input, and every truthy value of the
      input is kept. */
  lemma {:induction false} KeepTruthyMembers(xs: seq<Option<string>>)
    ensures forall i :: 0 <= i < |KeepTruthy(xs)| ==> Some(KeepTruthy(xs)[i]) in xs
    ensures forall k :: 0 <= k < |xs| && Truthy(xs[k]) ==> xs[k].value in KeepTruthy(xs)
  {
    if |xs| > 0 {
      var rest := KeepTruthy(xs[1..]);
      KeepTruthyMembers(xs[1..]);
      assert xs == [xs[0]] + xs[1..];
      assert KeepTruthy(xs) == (if Truthy(xs[0]) then [xs[0].value] else []) + rest;
      forall k | 1 <= k < |xs| && Truthy(xs[k]) ensures xs[k].value in KeepTruthy(xs) {
        assert xs[1..][k - 1] == xs[k];
      }
    }
  }

  /** The kept values are an order-preserving selection of the input. */
  lemma {:induction false} KeepTruthyIsSubsequence(xs: seq<Option<string>>)
    ensures IsSubsequence(Lift(KeepTruthy(xs)), xs)
  {
    if |xs| > 0 {
      var rest := KeepTruthy(xs[1..]);
      KeepTruthyIsSubsequence(xs[1..]);
      SubsequenceCons(Lift(rest), xs[0], xs[1..]);
      assert [xs[0]] + xs[1..] == xs;
      if Truthy(xs[0]) {
        assert KeepTruthy(xs) == [xs[0].value] + rest;
        assert Lift(KeepTruthy(xs)) == [xs[0]] + Lift(rest);
        assert IsSubsequence([xs[0]] + Lift(rest), [xs[0]] + xs[1..]);
      } else {
        assert KeepTruthy(xs) == rest;
      }
    }
  }

  /** When every value is truthy nothing is dropped: the k-th kept value is
      the k-th input value. */
  lemma {:induction false} KeepTruthyAll(xs: seq<Option<string>>)
    requires forall k :: 0 <= k < |xs| ==> Truthy(xs[k])
    ensures |KeepTruthy(xs)| == |xs|
    ensures forall k :: 0 <= k < |xs| ==> Some(KeepTruthy(xs)[k]) == xs[k]
  {
    if |xs| > 0 {
      KeepTruthyAll(xs[1..]);
    }
  }
}
