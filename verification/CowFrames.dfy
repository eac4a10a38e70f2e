/**
 How many frames copy-on-write needs: never more than the pages that a machine without
 sharing would fill, and no frame has more users than there are processes.
 */
module CowFrames {
  import opened Wrappers
  import opened CowState
  import DeepCopy

  /** All pages of all processes. */
  ghost function Pages(a: DeepCopy.Plain): set<(nat, nat)> {
    set p, v | p in a.spaces && v in a.spaces[p].pages :: (p, v)
  }

  /** The pages that map one of the frames `fs`. */
  ghost function UsersOf(s: State, fs: set<nat>): set<(nat, nat)> {
    set p, v | p in s.spaces && v in s.spaces[p].ptes && s.spaces[p].ptes[v].frame in fs :: (p, v)
  }

  lemma UsersOfSplit(s: State, fs: set<nat>, f: nat)
    requires f in fs
    ensures |UsersOf(s, fs)| == |UsersOf(s, fs - {f})| + |Users(s, f)|
  {
    var rest, mine := UsersOf(s, fs - {f}), Users(s, f);
    assert UsersOf(s, fs) == rest + mine;
    assert rest !! mine;
  }

  /** Frames in use are at most as many as the pages that use them. */
  lemma {:induction false} FramesAtMostUsers(s: State, fs: set<nat>)
    requires forall f :: f in fs ==> Users(s, f) != {}
    ensures |fs| <= |UsersOf(s, fs)|
    decreases fs
  {
    hide Users, UsersOf;
    if fs == {} {
    } else {
      var f :| f in fs;
      FramesAtMostUsers(s, fs - {f});
      UsersOfSplit(s, fs, f);
    }
  }

  lemma UsersOfPages(s: State, a: DeepCopy.Plain, fs: set<nat>)
    requires DeepCopy.Refines(s, a)
    ensures |UsersOf(s, fs)| <= |Pages(a)|
  {
    forall x | x in UsersOf(s, fs) ensures x in Pages(a) { DeepCopy.RefinesLook(s, a, x.0, x.1); }
    SubsetSize(UsersOf(s, fs), Pages(a));
  }

  lemma {:induction false} SubsetSize<T>(a: set<T>, b: set<T>)
    requires a <= b
    ensures |a| <= |b|
  {
    if a == {} {
    } else {
      var x :| x in a;
      SubsetSize(a - {x}, b - {x});
    }
  }

  lemma UsedHaveUsers(s: State)
    requires Inv(s)
    ensures s.free <= s.frames && s.kernel <= s.frames && s.free !! s.kernel
    ensures forall f :: f in s.frames - s.free - s.kernel ==> Users(s, f) != {}
  {
    hide Users, PageOk, RegionsOk, RootsOk;
    forall f | f in s.frames ensures !(f in s.free && f in s.kernel) { FrameShape(s, f); }
    forall f | f in s.frames - s.free - s.kernel ensures Users(s, f) != {} { assert FrameOk(s, f); }
  }

  /** The frames that are free make up for what copying would need beyond sharing and beyond the kernel's own. */
  lemma FreeFrames(s: State, a: DeepCopy.Plain)
    requires Inv(s) && DeepCopy.Refines(s, a)
    ensures |s.free| + |Pages(a)| + |s.kernel| >= |s.frames|
  {
    hide Inv, Users, UsersOf, DeepCopy.Refines, Pages;
    UsedHaveUsers(s);
    var used := s.frames - s.free - s.kernel;
    FramesAtMostUsers(s, used);
    UsersOfPages(s, a, used);
    assert s.frames == s.free + s.kernel + used;
  }

  lemma FrameCounted(s: State, p: nat, v: nat)
    requires Inv(s) && IsMapped(s, p, v)
    ensures var f := PteAt(s, p, v).frame; f in s.frames && f < MAX_FRAMES && RefOk(|Users(s, f)|, s.refs[f])
  {
    hide Users, RegionsOk;
    assert PageOk(s, p, v);
    assert FrameOk(s, PteAt(s, p, v).frame);
  }

  /** Users of one frame are as many as the processes they belong to. */
  lemma {:induction false} OneUserPerProcess(users: set<(nat, nat)>, processes: set<nat>)
    requires OnePage(users) && forall x :: x in users ==> x.0 in processes
    ensures |users| <= |processes|
    decreases users
  {
    if users == {} {
    } else {
      var x :| x in users;
      var rest := users - {x};
      forall y | y in rest ensures y.0 in processes - {x.0} {
        assert y.1 == x.1;
        assert y == (y.0, y.1) && x == (x.0, x.1);
      }
      OneUserPerProcess(rest, processes - {x.0});
    }
  }

  lemma SharersAreProcesses(s: State, f: nat)
    requires Inv(s) && f in s.frames
    ensures |Users(s, f)| <= |s.spaces|
  {
    hide PageOk, RegionsOk;
    assert FrameOk(s, f);
    forall x | x in Users(s, f) ensures x.0 in s.spaces.Keys { InUsers(s, f, x.0, x.1); }
    OneUserPerProcess(Users(s, f), s.spaces.Keys);
    assert |s.spaces.Keys| == |s.spaces|;
  }
}
