/** The device records and the intrusive list of open devices
    (kpodd.c:44-56, 86-110, 305-314). */
module Registry {

  /** A `struct KPod_device`. The path and the hidapi handle never change
      after the record is built; the script object bound to the record is
      the record itself. */
  class KPodDevice {
    const path: string
    const handle: nat
    var removePending: bool
    var prev: KPodDevice?
    var next: KPodDevice?

    /** kpodd.c:187-190: a fresh record with a copy of the path, the handle
        and `remove_pending = 0`. */
    constructor (path: string, handle: nat)
      ensures this.path == path && this.handle == handle
      ensures !removePending && prev == null && next == null
    {
      this.path := path;
      this.handle := handle;
      removePending := false;
      prev := null;
      next := null;
    }
  }

  /** A `struct KPod_device_list`. */
  class DeviceList {
    var head: KPodDevice?
    var tail: KPodDevice?
    /** Every record ever linked into the list. A removed record stays here,
        since the `prev` of a record linked after it may still point at it. */
    ghost var Repr: set<KPodDevice>

    /** The `{0}` list of main_hid. */
    constructor ()
      ensures head == null && tail == null && Repr == {}
      ensures Valid()
    {
      head := null;
      tail := null;
      Repr := {};
    }

    /** Every link of the list and of its records stays inside Repr. */
    ghost predicate Linked()
      reads this, Repr
    {
      && (head != null ==> head in Repr)
      && (tail != null ==> tail in Repr)
      && (forall d :: d in Repr ==> d.prev != null ==> d.prev in Repr)
      && (forall d :: d in Repr ==> d.next != null ==> d.next in Repr)
    }

    /** The invariant the daemon's operations keep: add_kpod_device never
        links the old tail forward, so no record's `next` is ever set, and
        the head, which is only ever a record added to an empty list, has no
        predecessor. */
    ghost predicate Valid()
      reads this, Repr
    {
      && Linked()
      && (forall d :: d in Repr ==> d.next == null)
      && (head != null ==> head.prev == null)
    }

    /** `s` is what a walk along `next` from `head` visits. */
    ghost predicate IsForwardChain(s: seq<KPodDevice>)
      reads this, s
    {
      && (head == null <==> s == [])
      && (s != [] ==> s[0] == head && s[|s| - 1].next == null)
      && (forall i :: 0 <= i < |s| - 1 ==> s[i].next == s[i + 1])
    }

    /** The records reachable forward from `head`, the ones that
        is_kpod_open, close_kpods and the poll loop visit. */
    ghost function Forward(): (s: seq<KPodDevice>)
      reads this, Repr
      requires Valid()
      ensures IsForwardChain(s)
      ensures forall d :: d in s ==> d in Repr
    {
      if head == null then [] else [head]
    }

    /** The forward walk is unique: it reaches at most the head. */
    lemma ForwardReachesOnlyHead(s: seq<KPodDevice>)
      requires Valid() && IsForwardChain(s)
      ensures s == Forward()
      ensures |s| <= 1
    {
      if |s| > 1 {
        assert s[0].next == s[1];
      }
    }

    /** add_kpod_device (kpodd.c:86-97). On a non-empty list only the new
        record's `prev` and the list's `tail` change: the old tail's `next`
        stays as it was, so walking forward does not reach the new record. */
    method Add(kpod: KPodDevice)
      requires Linked() && kpod !in Repr
      modifies this, kpod
      ensures Linked() && Repr == old(Repr) + {kpod}
      ensures old(head) == null ==> head == kpod && tail == kpod && kpod.prev == null && kpod.next == null
      ensures old(head) != null ==> head == old(head) && tail == kpod && kpod.prev == old(tail) && kpod.next == null
      ensures kpod.removePending == old(kpod.removePending)
      ensures forall d :: d in old(Repr) ==> d.prev == old(d.prev) && d.next == old(d.next)
      ensures old(Valid()) ==> Valid()
      ensures old(Valid()) && old(head) == null ==> Forward() == [kpod]
      ensures old(Valid()) && old(head) != null ==> Forward() == old(Forward()) && kpod !in Forward()
    {
      if head == null {
        head := kpod;
        tail := kpod;
        kpod.prev := null;
        kpod.next := null;
      } else {
        kpod.prev := tail;
        kpod.next := null;
        tail := kpod;
      }
      Repr := Repr + {kpod};
    }

    /** remove_kpod_device (kpodd.c:99-110): the head moves to `next` when the
        record has no predecessor, the tail moves to `prev` when it has no
        successor, otherwise the neighbours are linked to each other; no
        other link changes, and the record keeps its own links. */
    method Remove(kpod: KPodDevice)
      requires Linked() && kpod in Repr
      modifies this, Repr
      ensures Linked() && Repr == old(Repr)
      ensures head == (if old(kpod.prev) == null then old(kpod.next) else old(head))
      ensures tail == (if old(kpod.next) == null then old(kpod.prev) else old(tail))
      ensures old(kpod.prev) != null ==> old(kpod.prev).next == old(kpod.next)
      ensures old(kpod.next) != null ==> old(kpod.next).prev == old(kpod.prev)
      ensures forall d :: d in Repr && d != old(kpod.prev) ==> d.next == old(d.next)
      ensures forall d :: d in Repr && d != old(kpod.next) ==> d.prev == old(d.prev)
      ensures kpod.prev == old(kpod.prev) && kpod.next == old(kpod.next)
      ensures forall d :: d in Repr ==> d.removePending == old(d.removePending)
      ensures old(Valid()) ==> Valid()
    {
      if kpod.prev == null {
        head := kpod.next;
      } else {
        kpod.prev.next := kpod.next;
      }
      if kpod.next == null {
        tail := kpod.prev;
      } else {
        kpod.next.prev := kpod.prev;
      }
    }

    /** is_kpod_open (kpodd.c:305-314): whether a record reachable forward
        from `head` has the given path. */
    method IsOpen(path: string) returns (found: bool)
      requires Valid()
      ensures found <==> exists d :: d in Forward() && d.path == path
    {
      ghost var walk := Forward();
      ghost var k := 0;
      var kpod := head;
      while kpod != null
        invariant 0 <= k <= |walk|
        invariant kpod == (if k < |walk| then walk[k] else null)
        invariant forall j :: 0 <= j < k ==> walk[j].path != path
        decreases |walk| - k
      {
        if kpod.path == path {
          return true;
        }
        kpod := kpod.next;
        k := k + 1;
      }
      return false;
    }
  }
}
