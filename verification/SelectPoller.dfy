/** The select poller: a map and a list of channels that must agree, and a scan that may
    stop early. */
module Polling {

  type Fd = nat

  class Channel {
    const fd: Fd
    var reading: bool
    var writing: bool
    var revents: Events
    var index: int

    constructor (fd: Fd)
      ensures this.fd == fd && !reading && !writing
    {
      this.fd := fd;
      reading, writing, revents, index := false, false, Events(false, false, false), -1;
    }
  }

  datatype Events = Events(read: bool, write: bool, error: bool)

  /** What `select` leaves in the three sets; the return value counts the bits. */
  datatype Selected = Failed | Selected(read: set<Fd>, write: set<Fd>, except: set<Fd>)

  ghost predicate Agree(channels: map<Fd, Channel>, list: seq<Channel>) {
    && (forall fd :: fd in channels ==> channels[fd].fd == fd && channels[fd] in list)
    && (forall i :: 0 <= i < |list| ==> list[i].fd in channels && channels[list[i].fd] == list[i])
    && (forall i, j :: 0 <= i < j < |list| ==> list[i] != list[j])
  }

  function Remove(list: seq<Channel>, ch: Channel): (r: seq<Channel>) {
    if list == [] then [] else (if list[0] == ch then [] else [list[0]]) + Remove(list[1..], ch)
  }

  lemma {:induction false} RemoveMembers(list: seq<Channel>, ch: Channel, c: Channel)
    ensures c in Remove(list, ch) <==> c in list && c != ch
  {
    if list != [] {
      RemoveMembers(list[1..], ch, c);
      assert c in list <==> c == list[0] || c in list[1..];
    }
  }

  lemma {:induction false} RemoveDistinct(list: seq<Channel>, ch: Channel)
    requires forall i, j :: 0 <= i < j < |list| ==> list[i] != list[j]
    ensures var r := Remove(list, ch); forall i, j :: 0 <= i < j < |r| ==> r[i] != r[j]
  {
    if list != [] {
      RemoveDistinct(list[1..], ch);
      RemoveMembers(list[1..], ch, list[0]);
      assert list[0] !in list[1..];
    }
  }

  lemma {:induction false} RemoveAbsent(list: seq<Channel>, ch: Channel)
    requires ch !in list
    ensures Remove(list, ch) == list
  {
    if list != [] {
      RemoveAbsent(list[1..], ch);
    }
  }

  /** A channel that is there once is cut out, and nothing else moves. */
  lemma {:induction false} RemoveCuts(before: seq<Channel>, ch: Channel, after: seq<Channel>)
    requires ch !in before && ch !in after
    ensures Remove(before + ([ch] + after), ch) == before + after
    decreases |before|
  {
    var list := before + ([ch] + after);
    if before == [] {
      assert list[0] == ch && list[1..] == after && before + after == after;
      RemoveAbsent(after, ch);
    } else {
      assert list[0] == before[0] && list[1..] == before[1..] + ([ch] + after);
      RemoveCuts(before[1..], ch, after);
      assert [before[0]] + (before[1..] + after) == before + after;
    }
  }

  /** The channels with something to report, in list order. */
  function Hot(list: seq<Channel>, hot: set<Fd>): (r: seq<Channel>) {
    if list == [] then []
    else
      var rest := Hot(list[..|list| - 1], hot);
      if list[|list| - 1].fd in hot then rest + [list[|list| - 1]] else rest
  }

  predicate DistinctFds(list: seq<Channel>) {
    forall i, j :: 0 <= i < j < |list| ==> list[i].fd != list[j].fd
  }

  function Fds(list: seq<Channel>): (s: set<Fd>) {
    set c | c in list :: c.fd
  }

  lemma {:induction false} HotFds(list: seq<Channel>, hot: set<Fd>)
    requires DistinctFds(list)
    ensures Fds(Hot(list, hot)) == Fds(list) * hot
    ensures |Fds(Hot(list, hot))| == |Hot(list, hot)|
  {
    hide Fds;
    if list == [] {
      NoFds();
    } else {
      var last, front := list[|list| - 1], list[..|list| - 1];
      HotFds(front, hot);
      FdsAppend(front, last);
      assert front + [last] == list;
      LastIsNew(list);
      if last.fd in hot {
        FdsAppend(Hot(front, hot), last);
      }
    }
  }

  lemma NoFds()
    ensures Fds([]) == {}
  {
  }

  lemma LastIsNew(list: seq<Channel>)
    requires DistinctFds(list) && list != []
    ensures list[|list| - 1].fd !in Fds(list[..|list| - 1])
  {
  }

  lemma FdsAppend(list: seq<Channel>, c: Channel)
    ensures Fds(list + [c]) == Fds(list) + {c.fd}
  {
    assert forall d :: d in list + [c] <==> d in list || d == c;
  }

  lemma {:induction false} HotMembers(list: seq<Channel>, hot: set<Fd>, c: Channel)
    ensures c in Hot(list, hot) <==> c in list && c.fd in hot
  {
    if list != [] {
      var front := list[..|list| - 1];
      HotMembers(front, hot, c);
      assert c in list <==> c in front || c == list[|list| - 1];
    }
  }

  lemma {:induction false} HotConcat(a: seq<Channel>, b: seq<Channel>, hot: set<Fd>)
    ensures Hot(a + b, hot) == Hot(a, hot) + Hot(b, hot)
    decreases |b|
  {
    if b == [] {
      assert a + b == a;
    } else {
      var last := b[|b| - 1];
      assert (a + b)[..|a + b| - 1] == a + b[..|b| - 1];
      HotConcat(a, b[..|b| - 1], hot);
    }
  }

  lemma {:induction false} HotNone(list: seq<Channel>, hot: set<Fd>)
    requires forall i :: 0 <= i < |list| ==> list[i].fd !in hot
    ensures Hot(list, hot) == []
  {
    if list != [] {
      HotNone(list[..|list| - 1], hot);
    }
  }

  /** As many channels found as there were bits set: none can be left, because every channel
      found accounts for at least one bit. */
  lemma EarlyBreakIsSafe(list: seq<Channel>, hot: set<Fd>, bits: nat, k: nat)
    requires DistinctFds(list) && k <= |list| && |hot| <= bits <= |Hot(list[..k], hot)|
    ensures Hot(list, hot) == Hot(list[..k], hot)
  {
    var front, back := list[..k], list[k..];
    HotFds(front, hot);
    assert Fds(front) * hot <= hot;
    SubsetFull(Fds(front) * hot, hot);
    forall i | 0 <= i < |back| ensures back[i].fd !in hot {
      assert back[i] == list[k + i];
      assert forall j :: 0 <= j < k ==> front[j] == list[j] && front[j].fd != back[i].fd;
      assert back[i].fd !in Fds(front);
    }
    HotNone(back, hot);
    assert list == front + back;
    HotConcat(front, back, hot);
  }

  lemma {:induction false} SubsetFull(a: set<Fd>, b: set<Fd>)
    requires a <= b && |b| <= |a|
    ensures a == b
  {
    if a != b {
      var x :| x in b && x !in a;
      SubsetSize(a, b - {x});
    }
  }

  lemma {:induction false} SubsetSize(a: set<Fd>, b: set<Fd>)
    requires a <= b
    ensures |a| <= |b|
    decreases |a|
  {
    if x :| x in a {
      SubsetSize(a - {x}, b - {x});
    }
  }

  /** The union of the sets has no more members than the sets have bits. */
  lemma BitsCoverFds(r: set<Fd>, w: set<Fd>, e: set<Fd>)
    ensures |r + w + e| <= |r| + |w| + |e|
  {
    assert |r + w| == |r| + |w| - |r * w|;
    assert |(r + w) + e| == |r + w| + |e| - |(r + w) * e|;
  }

  /** The sets and the largest descriptor of all channels but those still to come. */
  ghost predicate Gathered(channels: map<Fd, Channel>, keys: set<Fd>, read: set<Fd>, write: set<Fd>, except: set<Fd>,
                           maxFd: nat)
    reads channels.Values
  {
    && (forall fd :: fd in read <==> fd in channels && fd !in keys && channels[fd].reading)
    && (forall fd :: fd in write <==> fd in channels && fd !in keys && channels[fd].writing)
    && except == channels.Keys - keys
    && (forall fd :: fd in channels && fd !in keys ==> fd <= maxFd)
    && (maxFd == 0 || maxFd in channels)
  }

  lemma GatheredNone(channels: map<Fd, Channel>)
    ensures Gathered(channels, channels.Keys, {}, {}, {}, 0)
  {
  }

  lemma GatheredNext(channels: map<Fd, Channel>, keys: set<Fd>, read: set<Fd>, write: set<Fd>, except: set<Fd>,
                     maxFd: nat, fd: Fd)
    requires Gathered(channels, keys, read, write, except, maxFd) && fd in keys && keys <= channels.Keys
    ensures Gathered(channels, keys - {fd},
                     if channels[fd].reading then read + {fd} else read,
                     if channels[fd].writing then write + {fd} else write,
                     except + {fd}, if fd > maxFd then fd else maxFd)
  {
  }

  lemma GatheredAll(channels: map<Fd, Channel>, read: set<Fd>, write: set<Fd>, except: set<Fd>, maxFd: nat)
    requires Gathered(channels, {}, read, write, except, maxFd)
    ensures read == (set fd | fd in channels && channels[fd].reading)
    ensures write == (set fd | fd in channels && channels[fd].writing)
    ensures except == channels.Keys && (maxFd == 0 || maxFd in channels)
    ensures forall fd :: fd in channels ==> fd <= maxFd
  {
  }

  class SelectPoller {
    var channels: map<Fd, Channel>
    var list: seq<Channel>

    ghost predicate Valid()
      reads this
    {
      Agree(channels, list)
    }

    constructor ()
      ensures Valid() && channels == map[] && list == []
    {
      channels, list := map[], [];
    }

    /** A channel for a new descriptor goes into both; for a known one nothing changes. */
    method UpdateChannel(ch: Channel)
      requires Valid()
      modifies this, ch`index
      ensures Valid() && ch.index == 0
      ensures ch.fd !in old(channels) ==> channels == old(channels)[ch.fd := ch] && list == old(list) + [ch]
      ensures ch.fd in old(channels) ==> channels == old(channels) && list == old(list)
    {
      if ch.fd !in channels {
        channels := channels[ch.fd := ch];
        list := list + [ch];
        assert ch in list;
        assert forall c :: c in old(list) ==> c in list;
      }
      ch.index := 0;
    }

    /** Map and list still agree afterwards exactly when the descriptor was not some other
        channel's: the map forgets the descriptor, the list forgets the object. */
    method RemoveChannel(ch: Channel)
      requires Valid()
      modifies this, ch`index
      ensures ch.index == -1 && channels == old(channels) - {ch.fd}
      ensures list == if ch.fd in old(channels) then Remove(old(list), ch) else old(list)
      ensures Valid() <==> ch.fd !in old(channels) || old(channels)[ch.fd] == ch
    {
      if ch.fd in channels {
        if channels[ch.fd] == ch {
          RemovedBoth(channels, list, ch);
        } else {
          RemovedOther(channels, list, ch);
        }
        channels := channels - {ch.fd};
        list := Remove(list, ch);
      }
      ch.index := -1;
      hide Agree;
      assert ch.fd !in old(channels) ==> old(channels) - {ch.fd} == old(channels);
    }

    /** The sets `select` is asked about: each channel's interests, errors always, and a
        bound above every descriptor. */
    method RebuildFds() returns (read: set<Fd>, write: set<Fd>, except: set<Fd>, maxFd: nat)
      requires Valid()
      ensures read == (set fd | fd in channels && channels[fd].reading)
      ensures write == (set fd | fd in channels && channels[fd].writing)
      ensures except == Fds(list) == channels.Keys
      ensures forall fd :: fd in channels ==> fd < maxFd
      ensures maxFd == 1 || (maxFd > 1 && maxFd - 1 in channels)
    {
      hide Agree, Fds, Gathered;
      AgreeFds(channels, list);
      read, write, except, maxFd := {}, {}, {}, 0;
      var keys := channels.Keys;
      GatheredNone(channels);
      while keys != {}
        invariant keys <= channels.Keys && Gathered(channels, keys, read, write, except, maxFd)
        decreases |keys|
      {
        var fd :| fd in keys;
        GatheredNext(channels, keys, read, write, except, maxFd, fd);
        if channels[fd].reading {
          read := read + {fd};
        }
        if channels[fd].writing {
          write := write + {fd};
        }
        except := except + {fd};
        if fd > maxFd {
          maxFd := fd;
        }
        keys := keys - {fd};
      }
      GatheredAll(channels, read, write, except, maxFd);
      maxFd := maxFd + 1;
    }

    /** Scan for what `select` reported, stopping when all bits are accounted for.  The
        descriptors asked about come from the registered channels. */
    method Poll(selected: Selected) returns (active: seq<Channel>)
      requires Valid()
      modifies list`revents
      ensures selected.Failed? ==> active == []
      ensures selected.Selected? ==>
                && active == Hot(list, selected.read + selected.write + selected.except)
                && (forall c :: c in list ==>
                      (c in active <==> c.fd in selected.read + selected.write + selected.except))
                && forall i :: 0 <= i < |active| ==>
                     active[i].revents == Events(active[i].fd in selected.read, active[i].fd in selected.write,
                                                 active[i].fd in selected.except)
      ensures forall c :: c in list && c !in active ==> c.revents == old(c.revents)
    {
      hide Hot, Agree, DistinctFds;
      active := [];
      if selected.Failed? {
        return;
      }
      var read, write, except := selected.read, selected.write, selected.except;
      ghost var hot := read + write + except;
      var n := |read| + |write| + |except|;
      ghost var bits := n;
      BitsCoverFds(read, write, except);
      forall c | c in list ensures c in Hot(list, hot) <==> c.fd in hot {
        HotMembers(list, hot, c);
      }
      AgreeDistinct(channels, list);
      if n == 0 {
        HotNone(list, hot);
        return;
      }
      var i := 0;
      assert list[..0] == [];
      HotNone([], hot);
      while i < |list|
        invariant 0 <= i <= |list| && active == Hot(list[..i], hot) && n == bits - |active| > 0
        invariant forall k :: 0 <= k < |active| ==>
                    active[k].revents == Events(active[k].fd in read, active[k].fd in write, active[k].fd in except)
        invariant forall c :: c in list && c !in active ==> c.revents == old(c.revents)
      {
        var ch := list[i];
        HotNext(list, i, hot);
        var revents := Events(ch.fd in read, ch.fd in write, ch.fd in except);
        if revents != Events(false, false, false) {
          ch.revents := revents;
          active := active + [ch];
          n := n - 1;
          if n <= 0 {
            EarlyBreakIsSafe(list, hot, bits, i + 1);
            return;
          }
        }
        i := i + 1;
      }
      assert list[..i] == list;
    }
  }

  lemma HotNext(list: seq<Channel>, i: nat, hot: set<Fd>)
    requires i < |list|
    ensures Hot(list[..i + 1], hot) == Hot(list[..i], hot) + if list[i].fd in hot then [list[i]] else []
  {
    assert list[..i + 1][..i] == list[..i];
  }

  lemma AgreeDistinct(channels: map<Fd, Channel>, list: seq<Channel>)
    requires Agree(channels, list)
    ensures DistinctFds(list)
  {
  }

  lemma AgreeFds(channels: map<Fd, Channel>, list: seq<Channel>)
    requires Agree(channels, list)
    ensures Fds(list) == channels.Keys
  {
  }

  /** Nothing reported goes undelivered and nothing is delivered twice: what `select` says
      about the descriptors it was asked about, the scan's result says once for each. */
  lemma EveryReportDelivered(channels: map<Fd, Channel>, list: seq<Channel>, hot: set<Fd>)
    requires Agree(channels, list) && hot <= channels.Keys
    ensures Fds(Hot(list, hot)) == hot && |Hot(list, hot)| == |hot|
  {
    AgreeDistinct(channels, list);
    AgreeFds(channels, list);
    HotFds(list, hot);
  }

  lemma RemovedBoth(channels: map<Fd, Channel>, list: seq<Channel>, ch: Channel)
    requires Agree(channels, list) && ch.fd in channels && channels[ch.fd] == ch
    ensures Agree(channels - {ch.fd}, Remove(list, ch))
  {
    RemoveDistinct(list, ch);
    var r := Remove(list, ch);
    forall i | 0 <= i < |r| ensures r[i].fd in channels - {ch.fd} && channels[r[i].fd] == r[i] {
      RemoveMembers(list, ch, r[i]);
      var j :| 0 <= j < |list| && list[j] == r[i];
      assert channels[list[j].fd] == list[j];
    }
    forall fd | fd in channels && fd != ch.fd ensures channels[fd] in r {
      RemoveMembers(list, ch, channels[fd]);
    }
  }

  lemma RemovedOther(channels: map<Fd, Channel>, list: seq<Channel>, ch: Channel)
    requires Agree(channels, list) && ch.fd in channels && channels[ch.fd] != ch
    ensures !Agree(channels - {ch.fd}, Remove(list, ch))
  {
    var c := channels[ch.fd];
    var r := Remove(list, ch);
    RemoveMembers(list, ch, c);
    var i :| 0 <= i < |r| && r[i] == c;
  }
}
