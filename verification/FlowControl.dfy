/** Blocks and separation times (section 9.6.5 of ISO 15765-2:2016), as properties
  * of what a sender did. */
module FlowControl {
  /** A clear-to-send as decoded, and when it came. */
  datatype Grant = Grant(blockSize: nat, stmin: nat, time: nat)

  /** A consecutive frame that was queued: when, and under which grant. */
  datatype Sending = Sending(time: nat, grant: nat)

  /** The separation time is kept between any two frames, and after a grant. */
  predicate Separated(cfs: seq<Sending>, grants: seq<Grant>) {
    && (forall i :: 0 <= i < |cfs| ==> cfs[i].grant < |grants|)
    && (forall i :: 0 <= i < |cfs| ==> cfs[i].time >= grants[cfs[i].grant].time + grants[cfs[i].grant].stmin)
    && (forall i :: 0 < i < |cfs| ==> cfs[i].time >= cfs[i - 1].time + grants[cfs[i].grant].stmin)
  }

  /** At most a block of frames goes out under one grant. */
  predicate Blocked(cfs: seq<Sending>, grants: seq<Grant>) {
    && (forall i :: 0 <= i < |cfs| ==> cfs[i].grant < |grants|)
    && (forall i, j :: 0 <= i <= j < |cfs| ==> cfs[i].grant <= cfs[j].grant)
    && (forall i, j :: 0 <= i <= j < |cfs| && cfs[i].grant == cfs[j].grant && grants[cfs[i].grant].blockSize != 0
          ==> j - i < grants[cfs[i].grant].blockSize)
  }

  /** The last event a separation time counts from. */
  function LastEvent(cfs: seq<Sending>, grants: seq<Grant>): nat
    requires grants != []
  {
    if cfs != [] && cfs[|cfs| - 1].grant == |grants| - 1 then cfs[|cfs| - 1].time else grants[|grants| - 1].time
  }

  /** How many of the last frames went out under the last grant. */
  predicate CountedUnderLast(cfs: seq<Sending>, grants: seq<Grant>, count: nat) {
    && count <= |cfs|
    && (forall i :: |cfs| - count <= i < |cfs| ==> cfs[i].grant == |grants| - 1)
    && (forall i :: 0 <= i < |cfs| - count ==> cfs[i].grant < |grants| - 1)
  }

  lemma GrantAdded(cfs: seq<Sending>, grants: seq<Grant>, g: Grant)
    requires Separated(cfs, grants) && Blocked(cfs, grants)
    ensures Separated(cfs, grants + [g]) && Blocked(cfs, grants + [g]) && CountedUnderLast(cfs, grants + [g], 0)
    ensures LastEvent(cfs, grants + [g]) == g.time
  {
  }

  lemma FrameAdded(cfs: seq<Sending>, grants: seq<Grant>, count: nat, time: nat)
    requires Separated(cfs, grants) && Blocked(cfs, grants) && grants != [] && CountedUnderLast(cfs, grants, count)
    requires var g := grants[|grants| - 1];
      && time >= LastEvent(cfs, grants) + g.stmin && (g.blockSize != 0 ==> count < g.blockSize)
      && (cfs != [] ==> cfs[|cfs| - 1].time <= LastEvent(cfs, grants)) && g.time <= LastEvent(cfs, grants)
    ensures var n := cfs + [Sending(time, |grants| - 1)];
      Separated(n, grants) && Blocked(n, grants) && CountedUnderLast(n, grants, count + 1)
        && LastEvent(n, grants) == time
  {
    hide Separated, Blocked, CountedUnderLast;
    FrameSeparated(cfs, grants, time);
    FrameBlocked(cfs, grants, count, time);
  }

  lemma FrameSeparated(cfs: seq<Sending>, grants: seq<Grant>, time: nat)
    requires Separated(cfs, grants) && grants != []
    requires var g := grants[|grants| - 1];
      time >= LastEvent(cfs, grants) + g.stmin && (cfs != [] ==> cfs[|cfs| - 1].time <= LastEvent(cfs, grants))
      && g.time <= LastEvent(cfs, grants)
    ensures Separated(cfs + [Sending(time, |grants| - 1)], grants)
  {
    hide LastEvent;
  }

  lemma FrameBlocked(cfs: seq<Sending>, grants: seq<Grant>, count: nat, time: nat)
    requires Blocked(cfs, grants) && grants != [] && CountedUnderLast(cfs, grants, count)
    requires grants[|grants| - 1].blockSize != 0 ==> count < grants[|grants| - 1].blockSize
    ensures var n := cfs + [Sending(time, |grants| - 1)];
      Blocked(n, grants) && CountedUnderLast(n, grants, count + 1)
  {
    var n, last := cfs + [Sending(time, |grants| - 1)], |grants| - 1;
    forall i, j | 0 <= i <= j < |n| && n[i].grant == n[j].grant && grants[n[i].grant].blockSize != 0
      ensures j - i < grants[n[i].grant].blockSize
    {
      if j == |cfs| && i < j {
        assert n[i] == cfs[i] && cfs[i].grant == last;
        assert i >= |cfs| - count;
      }
    }
  }

  /** How many frames went out under grant `g`. */
  function Under(cfs: seq<Sending>, g: nat): nat
    decreases |cfs|
  {
    if cfs == [] then 0
    else Under(cfs[..|cfs| - 1], g) + (if cfs[|cfs| - 1].grant == g then 1 else 0)
  }

  lemma {:induction false} UnderSpan(cfs: seq<Sending>, g: nat)
    requires Under(cfs, g) > 0
    ensures exists i, j :: 0 <= i <= j < |cfs| && cfs[i].grant == g && cfs[j].grant == g && j - i + 1 >= Under(cfs, g)
    decreases |cfs|
  {
    var last := |cfs| - 1;
    var front := cfs[..last];
    if Under(front, g) > 0 {
      UnderSpan(front, g);
      var i, j :| 0 <= i <= j < |front| && front[i].grant == g && front[j].grant == g && j - i + 1 >= Under(front, g);
      if cfs[last].grant == g {
        assert cfs[i].grant == g && last - i + 1 >= Under(cfs, g);
      } else {
        assert cfs[i].grant == g && cfs[j].grant == g;
      }
    } else {
      assert cfs[last].grant == g && last - last + 1 >= Under(cfs, g);
    }
  }

  /** No clear-to-send is used for more frames than its block size. */
  lemma BlockSizeKept(cfs: seq<Sending>, grants: seq<Grant>, g: nat)
    requires Blocked(cfs, grants) && g < |grants| && grants[g].blockSize != 0
    ensures Under(cfs, g) <= grants[g].blockSize
  {
    if Under(cfs, g) > 0 {
      UnderSpan(cfs, g);
    }
  }
}
