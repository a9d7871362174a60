/** The shape shared by the two loops of main.js, `sendtoAll` and `startBot`. The loop of
    `sendtoAll` sits inside one `try`; that of `startBot` has none. In both, the entries are taken
    in order and the first entry whose handling throws is the last one taken. */
module Passes {
  /** The entries of `xs` from position `i` on, up to and including the first one that `stops`. */
  function TakeThrough<T>(xs: seq<T>, stops: T -> bool, i: nat): seq<T>
    requires i <= |xs|
    decreases |xs| - i
  {
    if i == |xs| then []
    else [xs[i]] + if stops(xs[i]) then [] else TakeThrough(xs, stops, i + 1)
  }

  /** The entries taken are a contiguous stretch of the list starting at position `i`. */
  lemma {:induction false} TakeOrder<T>(xs: seq<T>, stops: T -> bool, i: nat)
    requires i <= |xs|
    decreases |xs| - i
    ensures var r := TakeThrough(xs, stops, i);
      i + |r| <= |xs| && r == xs[i..i + |r|]
  {
    if i < |xs| {
      var r := TakeThrough(xs, stops, i);
      if stops(xs[i]) {
        assert r == [xs[i]];
      } else {
        var rest := TakeThrough(xs, stops, i + 1);
        TakeOrder(xs, stops, i + 1);
        assert r == [xs[i]] + rest;
        assert xs[i..i + |r|] == [xs[i]] + xs[i + 1..i + 1 + |rest|];
      }
    }
  }

  /** Only the last of the entries `r`, taken from position `i` of a list of length `n`, stops the
      loop, and if the last one did not stop it the loop reached the end of the list. */
  predicate StopsOnlyLast<T>(r: seq<T>, stops: T -> bool, n: nat, i: nat) {
    (forall k :: 0 <= k < |r| && stops(r[k]) ==> k == |r| - 1) &&
    (r == [] || !stops(r[|r| - 1]) ==> i + |r| == n)
  }

  lemma {:induction false} TakeEnd<T>(xs: seq<T>, stops: T -> bool, i: nat)
    requires i <= |xs|
    decreases |xs| - i
    ensures StopsOnlyLast(TakeThrough(xs, stops, i), stops, |xs|, i)
  {
    if i < |xs| && !stops(xs[i]) {
      var r := TakeThrough(xs, stops, i);
      var rest := TakeThrough(xs, stops, i + 1);
      TakeEnd(xs, stops, i + 1);
      assert r == [xs[i]] + rest;
      forall k | 0 <= k < |r| && stops(r[k]) ensures k == |r| - 1 {
        assert k != 0;
        assert r[k] == rest[k - 1];
      }
      if rest != [] {
        assert r[|r| - 1] == rest[|rest| - 1];
      }
    }
  }

  /** With no entry that stops the loop, every remaining entry is taken. */
  lemma {:induction false} TakeAll<T>(xs: seq<T>, stops: T -> bool, i: nat)
    requires i <= |xs|
    requires forall p :: i <= p < |xs| ==> !stops(xs[p])
    decreases |xs| - i
    ensures TakeThrough(xs, stops, i) == xs[i..]
  {
    if i < |xs| {
      TakeAll(xs, stops, i + 1);
      assert xs[i..] == [xs[i]] + xs[i + 1..];
    }
  }

  /** Two lists that agree from position `i` on give the same entries. */
  lemma {:induction false} TakeAgree<T>(xs: seq<T>, ys: seq<T>, stops: T -> bool, i: nat)
    requires |xs| == |ys| && i <= |xs|
    requires forall p :: i <= p < |xs| ==> xs[p] == ys[p]
    decreases |xs| - i
    ensures TakeThrough(xs, stops, i) == TakeThrough(ys, stops, i)
  {
    if i < |xs| {
      TakeAgree(xs, ys, stops, i + 1);
    }
  }

  /** One pass of the loop: the entry at `i` extends what was taken so far, and the loop goes on
      from `i + 1` unless that entry stopped it. */
  lemma TakeStep<T>(xs: seq<T>, stops: T -> bool, i: nat, taken: seq<T>)
    requires i < |xs|
    ensures stops(xs[i]) ==> taken + [xs[i]] == taken + TakeThrough(xs, stops, i)
    ensures !stops(xs[i]) ==>
      taken + [xs[i]] + TakeThrough(xs, stops, i + 1) == taken + TakeThrough(xs, stops, i)
  {
    if !stops(xs[i]) {
      assert TakeThrough(xs, stops, i) == [xs[i]] + TakeThrough(xs, stops, i + 1);
    }
  }
}
