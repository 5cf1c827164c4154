/**
 The list of driver instances of ircard_cs.c: links chained through `next`, removed through the
 place that points at them, and freed only once they are no longer configured.
 */
module DevLists {

  class DevLink {
    var next: DevLink?
    var open: bool
    var config: bool
    var staleConfig: bool
    var staleLink: bool

    constructor (next: DevLink?)
      ensures this.next == next && !open && !config && !staleConfig && !staleLink
    {
      this.next := next;
      open, config, staleConfig, staleLink := false, false, false, false;
    }
  }

  /** The list without its `k`th element. */
  function Without<T>(s: seq<T>, k: nat): seq<T>
    requires k < |s|
  {
    s[..k] + s[k + 1..]
  }

  class DevList {
    var head: DevLink?
    ghost var links: seq<DevLink>
    ghost var freed: seq<DevLink>

    ghost predicate Chained()
      reads this, links
    {
      && head == LinkAt(0)
      && forall k {:trigger links[k].next} :: 0 <= k < |links| ==> links[k].next == LinkAt(k + 1)
    }

    ghost predicate Valid()
      reads this, links
    {
      && Chained()
      && (forall i, j :: 0 <= i < j < |links| ==> links[i] != links[j])
      && (forall l :: l in links ==> l !in freed)
    }

    ghost function LinkAt(k: nat): DevLink?
      reads this
    {
      if k < |links| then links[k] else null
    }

    /** What decides the fate of each link when the module is unloaded. */
    ghost function States(): (s: seq<LinkState>)
      reads this, links
      ensures |s| == |links|
      ensures forall k :: 0 <= k < |links| ==> s[k] == LinkState(links[k].open, links[k].config)
    {
      seq(|links|, k requires 0 <= k < |links| reads this, links => LinkState(links[k].open, links[k].config))
    }

    constructor ()
      ensures Valid() && links == [] && freed == []
    {
      head := null;
      links, freed := [], [];
    }

    /**
     Creates a link at the front of the list. When it cannot be registered it is taken off again
     and freed.
     */
    method Attach(registered: bool) returns (link: DevLink?)
      requires Valid()
      modifies this, links
      ensures Valid()
      ensures registered ==> link != null && fresh(link) && links == [link] + old(links) && freed == old(freed)
      ensures !registered ==> link == null && links == old(links)
      ensures !registered ==> |freed| == |old(freed)| + 1 && old(freed) <= freed && fresh(freed[|old(freed)|])
    {
      var l := Insert();
      hide Valid;
      if !registered {
        assert links[0] == l && Without(links, 0) == old(links);
        Detach(l, 0);
        return null;
      }
      return l;
    }

    method Insert() returns (l: DevLink)
      requires Valid()
      modifies this`head, this`links
      ensures Valid() && fresh(l) && links == [l] + old(links) && !l.config && !l.open
    {
      l := new DevLink(head);
      head := l;
      links := [l] + links;
    }

    lemma First()
      requires Valid()
      ensures head == null <==> links == []
      ensures links != [] ==> head == links[0]
    {
    }

    /**
     Looks for a link; `prev` is the link whose `next` points at it, or null when the list's head
     does.
     */
    method Find(link: DevLink) returns (prev: DevLink?, cur: DevLink?, ghost k: nat)
      requires Valid()
      ensures k <= |links| && cur == LinkAt(k) && (k == 0 ==> prev == null)
      ensures k > 0 ==> prev == links[k - 1]
      ensures cur == null <==> link !in links
      ensures cur != null ==> cur == link
    {
      prev, cur, k := null, head, 0;
      while cur != null && cur != link
        invariant k <= |links| && cur == LinkAt(k) && (k == 0 ==> prev == null)
        invariant k > 0 ==> prev == links[k - 1]
        invariant link !in links[..k]
        decreases |links| - k
      {
        prev, cur, k := cur, cur.next, k + 1;
      }
      assert links[..|links|] == links;
    }

    /**
     Takes a link off the list and frees it, unless it is still configured: then it is only marked.
     A link that is not on the list is left alone. `k` is the link's place, if it has one.
     */
    method Detach(link: DevLink, ghost k: nat)
      requires Valid()
      requires link in links ==> k < |links| && links[k] == link
      modifies this, links
      ensures Valid()
      ensures link !in old(links) ==> unchanged(this) && unchanged(old(links))
      ensures link in old(links) && old(link.config) ==>
                links == old(links) && freed == old(freed) && link.staleLink && head == old(head)
      ensures link in old(links) && !old(link.config) ==>
                links == Without(old(links), k) && freed == old(freed) + [link]
      ensures forall l :: l in old(links) ==> l.open == old(l.open) && l.config == old(l.config)
      ensures forall l :: l in old(links) && l != link ==> l.staleLink == old(l.staleLink)
    {
      var prev, cur, at := Find(link);
      if cur == null {
        return;
      }
      if link.config {
        link.staleLink := true;
        return;
      }
      assert at == k;
      if prev == null {
        head := link.next;
      } else {
        prev.next := link.next;
      }
      links := Without(links, k);
      freed := freed + [link];
    }

    /**
     Gives up a link's configuration, or puts that off while the link is open. Nothing is detached
     here, not even a link that was marked for it.
     */
    method Release(link: DevLink)
      requires Valid()
      modifies link`config, link`staleConfig
      ensures Valid() && links == old(links)
      ensures link.config == (old(link.config) && link.open)
      ensures link.staleConfig == (old(link.staleConfig) || link.open)
    {
      if link.open {
        link.staleConfig := true;
        return;
      }
      link.config := false;
    }

    /** One round of unloading: the first link goes, unless it is open and configured. */
    method CleanupStep()
      requires Valid() && head != null
      modifies this, links
      ensures Valid() && |old(links)| > 0
      ensures old(head.open && head.config) ==> links == old(links) && freed == old(freed)
      ensures !old(head.open && head.config) ==>
                links == old(links)[1..] && freed == old(freed) + [old(links)[0]]
      ensures forall l :: l in links ==> l.open == old(l.open) && l.config == old(l.config)
    {
      hide Valid;
      First();
      if head.config {
        Release(head);
      }
      Detach(head, 0);
      assert Without(old(links), 0) == old(links)[1..];
    }

    /** The rounds of unloading are the rounds of its model. */
    method CleanupRound()
      requires Valid() && head != null
      modifies this, links
      ensures Valid() && old(States()) != []
      ensures States() == Round(old(States()))
    {
      First();
      hide Valid;
      CleanupStep();
    }

    /** Unloading ends with an empty list, every link freed, front to back. */
    method Cleanup()
      requires Valid() && forall l :: l in links ==> !(l.open && l.config)
      modifies this, links
      ensures Valid() && links == [] && head == null
      ensures freed == old(freed) + old(links)
    {
      hide Valid;
      ghost var all, n := links, 0;
      First();
      while head != null
        invariant Valid() && (head == null <==> links == []) && (links != [] ==> head == links[0])
        invariant forall l :: l in links ==> !(l.open && l.config)
        invariant n <= |all| && links == all[n..]
        invariant freed == old(freed) + all[..n]
        modifies this, all
        decreases |links|
      {
        CleanupStep();
        First();
        n := n + 1;
        assert all[..n] == all[..n - 1] + [all[n - 1]];
      }
    }
  }

  datatype LinkState = LinkState(open: bool, config: bool)

  predicate Stuck(l: LinkState) { l.open && l.config }

  predicate Removable(s: seq<LinkState>) {
    forall k :: 0 <= k < |s| ==> !Stuck(s[k])
  }

  function Round(s: seq<LinkState>): seq<LinkState>
    requires s != []
  {
    if Stuck(s[0]) then s else s[1..]
  }

  function Rounds(s: seq<LinkState>, n: nat): seq<LinkState>
    decreases n
  {
    if n == 0 || s == [] then s else Rounds(Round(s), n - 1)
  }

  /** Unloading ends exactly when no link is both open and configured; otherwise it goes on forever. */
  lemma {:induction false} CleanupEnds(s: seq<LinkState>)
    ensures Removable(s) <==> exists n: nat :: Rounds(s, n) == []
  {
    if Removable(s) {
      EmptiesRemovable(s);
    } else {
      forall n: nat
        ensures Rounds(s, n) != []
      {
        NeverEmpties(s, n);
      }
    }
  }

  lemma {:induction false} EmptiesRemovable(s: seq<LinkState>)
    requires Removable(s)
    ensures Rounds(s, |s|) == []
  {
    if s != [] {
      EmptiesRemovable(s[1..]);
    }
  }

  lemma {:induction false} NeverEmpties(s: seq<LinkState>, n: nat)
    requires !Removable(s)
    ensures Rounds(s, n) != []
    decreases n
  {
    if n > 0 {
      assert !Removable(Round(s)) by {
        var k :| 0 <= k < |s| && Stuck(s[k]);
        assert !Stuck(s[0]) ==> s[1..][k - 1] == s[k];
      }
      NeverEmpties(Round(s), n - 1);
    }
  }
}
