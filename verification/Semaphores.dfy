/**
 Counting semaphores with interruptible waits. A wait is two critical sections: one that
 takes a token or queues up, and one after waking that finds out whether a post came for it.
 */
module Semaphores {
  function Positive(v: int): nat
  {
    if v > 0 then v else 0
  }

  ghost predicate NoRepeats(s: seq<nat>)
  {
    forall i, j | 0 <= i < j < |s| :: s[i] != s[j]
  }

  class Semaphore {
    var val: int
    var sleepers: seq<nat>        // `sleeplist`, the most recent wait first
    var up: map<nat, bool>        // `wait->up` of every wait that went to sleep and has not returned
    ghost var initial: int
    ghost var posts: nat
    ghost var grants: nat         // tokens given to waits, to `get_sem` and to `get_all_sem`

    /** Tokens are conserved, and the sleepers are exactly the waits no post has come for. */
    ghost predicate Valid()
      reads this
    {
      && |sleepers| == Positive(-val) && NoRepeats(sleepers)
      && val == initial + posts - grants - |sleepers|
      && forall w :: w in sleepers <==> w in up && !up[w]
    }

    constructor (v: int)
      requires v >= 0
      ensures Valid() && val == initial == v && posts == 0 && grants == 0 && sleepers == [] && up == map[]
    {
      val, sleepers, up := v, [], map[];
      initial, posts, grants := v, 0, 0;
    }

    /** `_get_sem`. */
    method Get() returns (ok: bool)
      requires Valid()
      modifies this
      ensures Valid() && initial == old(initial) && posts == old(posts) && sleepers == old(sleepers) && up == old(up)
      ensures ok <==> old(val) > 0
      ensures grants == old(grants) + (if ok then 1 else 0)
    {
      ok := val > 0;
      if ok {
        val := val - 1;
        grants := grants + 1;
      }
    }

    /** `get_all_sem`. */
    method GetAll() returns (n: nat)
      requires Valid()
      modifies this
      ensures Valid() && initial == old(initial) && posts == old(posts) && sleepers == old(sleepers) && up == old(up)
      ensures n == Positive(old(val)) && grants == old(grants) + n && val <= 0
    {
      n := 0;
      if val > 0 {
        n := val;
        val := 0;
        grants := grants + n;
      }
    }

    /** The first half of `_wait_sem`: true if it returned at once. */
    method WaitBegin(w: nat) returns (granted: bool)
      requires Valid() && w !in up
      modifies this
      ensures Valid() && initial == old(initial) && posts == old(posts)
      ensures granted <==> old(val) > 0
      ensures granted ==> grants == old(grants) + 1 && sleepers == old(sleepers) && up == old(up)
      ensures !granted ==> grants == old(grants) && sleepers == [w] + old(sleepers) && up == old(up)[w := false]
    {
      val := val - 1;
      granted := val >= 0;
      if granted {
        grants := grants + 1;
      } else {
        Fresh(w);
        sleepers := [w] + sleepers;
        up := up[w := false];
        assert forall v :: v in sleepers <==> v == w || v in old(sleepers);
      }
    }

    lemma Fresh(w: nat)
      requires w !in up && forall v :: v in sleepers <==> v in up && !up[v]
      ensures w !in sleepers
    {
    }

    /**
     The second half, after waking for whatever reason. It is true exactly if a post came for
     this wait; otherwise the semaphore is as if the wait had never been.
     */
    method WaitEnd(w: nat) returns (granted: bool)
      requires Valid() && w in up
      modifies this
      ensures Valid() && initial == old(initial) && posts == old(posts) && grants == old(grants) && up == old(up) - {w}
      ensures granted <==> old(up[w])
      ensures granted ==> val == old(val) && sleepers == old(sleepers)
      ensures !granted ==> val == old(val) + 1 <= 0
      ensures !granted ==> exists i ::
                             0 <= i < |old(sleepers)| && old(sleepers)[i] == w
                             && sleepers == old(sleepers[..i] + sleepers[i + 1..])
    {
      granted := up[w];
      if !granted {
        var i := 0;
        while sleepers[i] != w
          invariant 0 <= i < |sleepers| && forall j | 0 <= j < i :: sleepers[j] != w
          decreases |sleepers| - i
        {
          assert w in sleepers;
          i := i + 1;
        }
        val := val + 1;
        ghost var was := sleepers;
        sleepers := sleepers[..i] + sleepers[i + 1..];
        Detached(was, i);
      }
      up := up - {w};
    }

    /** `_post_sem`: a token, or the oldest sleeper woken. */
    method Post()
      requires Valid()
      modifies this
      ensures Valid() && initial == old(initial) && posts == old(posts) + 1 && val == old(val) + 1
      ensures old(val) >= 0 ==> grants == old(grants) && sleepers == old(sleepers) && up == old(up)
      ensures old(val) < 0 ==> |old(sleepers)| > 0 && sleepers == old(sleepers)[..|old(sleepers)| - 1]
      ensures old(val) < 0 ==> grants == old(grants) + 1 && up == old(up)[old(sleepers)[|old(sleepers)| - 1] := true]
    {
      val := val + 1;
      posts := posts + 1;
      if val <= 0 {
        var n := |sleepers| - 1;
        var w := sleepers[n];
        ghost var was := sleepers;
        sleepers := sleepers[..n];
        Detached(was, n);
        assert was[..n] + was[n + 1..] == sleepers;
        up := up[w := true];
        grants := grants + 1;
      }
    }

    /** `post_all_sem`: every sleeper is woken, their number is returned, and no token is left over. */
    method PostAll() returns (n: int)
      requires Valid()
      modifies this
      ensures Valid() && initial == old(initial) && n == |old(sleepers)| && val == Positive(old(val)) && sleepers == []
      ensures forall w <- old(up) :: w in up && up[w]
      ensures up.Keys == old(up).Keys && posts - grants == old(posts) - old(grants)
    {
      n := -1;
      var got := false;
      while !got
        invariant Valid() && initial == old(initial) && up.Keys == old(up).Keys && -1 <= n
        invariant forall w <- up :: old(up)[w] ==> up[w]
        invariant !got ==> val == old(val) + n + 1 && (n == -1 || val <= 0) && |sleepers| == Positive(-val)
        invariant got ==> n == |old(sleepers)| && val == Positive(old(val)) && sleepers == []
        decreases !got, -val
      {
        Post();
        n := n + 1;
        got := Get();
      }
    }
  }

  lemma {:induction false} Detached(s: seq<nat>, i: nat)
    requires NoRepeats(s) && i < |s|
    ensures NoRepeats(s[..i] + s[i + 1..]) && forall w :: w in s[..i] + s[i + 1..] <==> w in s && w != s[i]
  {
    var t := s[..i] + s[i + 1..];
    forall w ensures w in t <==> w in s && w != s[i] {
      if w in s && w != s[i] {
        var j :| 0 <= j < |s| && s[j] == w;
        assert t[if j < i then j else j - 1] == w;
      }
    }
  }
}
