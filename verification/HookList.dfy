/** The APT hook list. Its head is a static node rather than a pointer, so registering a hook
    copies the head into the caller's cookie and puts the new callback in the head: each
    callback lives one node before the cookie it was registered with. */
module HookList {

  const NO_CALLBACK := 0

  class Cookie {
    var next: Cookie?
    var callback: int
    var param: int

    constructor ()
      ensures next == null && callback == NO_CALLBACK
    {
      next, callback, param := null, NO_CALLBACK, 0;
    }
  }

  /** A registration: the cookie it was made with, and what it asked for. */
  datatype Entry = Entry(cookie: Cookie, callback: int, param: int)

  datatype Call = Call(callback: int, param: int)

  /** One call for each registration, in order. */
  function Calls(entries: seq<Entry>): (calls: seq<Call>)
    ensures |calls| == |entries|
    ensures forall i :: 0 <= i < |entries| ==> calls[i] == Call(entries[i].callback, entries[i].param)
  {
    if entries == [] then [] else [Call(entries[0].callback, entries[0].param)] + Calls(entries[1..])
  }

  function Without(entries: seq<Entry>, cookie: Cookie): seq<Entry> {
    if entries == [] then []
    else if entries[0].cookie == cookie then entries[1..]
    else [entries[0]] + Without(entries[1..], cookie)
  }

  class Hooks {
    const first: Cookie
    ghost var nodes: seq<Cookie>    // the chain, from the static head on
    ghost var entries: seq<Entry>   // the registrations, newest first

    ghost predicate NodeAt(i: nat)
      requires i < |nodes| == |entries| + 1
      reads this`nodes, this`entries, nodes
    {
      if i < |entries| then
        && nodes[i].next == nodes[i + 1]
        && nodes[i].callback == entries[i].callback != NO_CALLBACK
        && nodes[i].param == entries[i].param && nodes[i + 1] == entries[i].cookie
      else
        nodes[i].next == null && nodes[i].callback == NO_CALLBACK
    }

    ghost predicate Valid()
      reads this`nodes, this`entries, nodes
    {
      && |nodes| == |entries| + 1 && nodes[0] == first
      && (forall i, j :: 0 <= i < j < |nodes| ==> nodes[i] != nodes[j])
      && forall i :: 0 <= i < |nodes| ==> NodeAt(i)
    }

    constructor ()
      ensures Valid() && entries == [] && fresh(first)
    {
      first := new Cookie();
      new;
      nodes, entries := [first], [];
    }

    /** aptCallHook: calls every registered callback, newest first. */
    method CallHook() returns (calls: seq<Call>)
      requires Valid()
      ensures calls == Calls(entries)
    {
      calls := [];
      var c: Cookie? := first;
      ghost var k := 0;
      while c != null && c.callback != NO_CALLBACK
        invariant k <= |entries| && c == nodes[k]
        invariant calls + Calls(entries[k..]) == Calls(entries)
        decreases |entries| - k
      {
        assert NodeAt(k);
        assert entries[k..][1..] == entries[k + 1..] && entries[k..][0] == entries[k];
        calls := calls + [Call(c.callback, c.param)];
        c := c.next;
        k := k + 1;
      }
      assert NodeAt(k);
    }

    /** aptHook: a registration goes to the front, unless the cookie is registered already: then
        the chain closes to a circle, and calling the hooks never ends. */
    method Hook(cookie: Cookie, callback: int, param: int) returns (ghost circle: seq<Cookie>)
      requires Valid() && cookie != first
      modifies this, first, cookie
      ensures callback == NO_CALLBACK ==> Valid() && entries == old(entries) && nodes == old(nodes)
      ensures callback != NO_CALLBACK && cookie !in old(nodes) ==>
                && Valid() && entries == [Entry(cookie, callback, param)] + old(entries)
                && nodes == [first, cookie] + old(nodes)[1..]
      ensures callback != NO_CALLBACK && cookie in old(nodes) ==>
                first.callback != NO_CALLBACK && circle != [] && first.next == circle[0] && Circular(circle)
    {
      circle := [];
      if callback == NO_CALLBACK { return; }
      ghost var known := cookie in nodes;
      if known { circle := OldPart(cookie); }
      assert NodeAt(0);
      var hook := first;
      cookie.next, cookie.callback, cookie.param := hook.next, hook.callback, hook.param;
      hook.next := cookie;
      hook.callback := callback;
      hook.param := param;
      if !known {
        nodes := [first, cookie] + nodes[1..];
        entries := [Entry(cookie, callback, param)] + entries;
        forall i | 0 <= i < |nodes| ensures NodeAt(i) {
          if i > 0 { assert old(NodeAt(i - 1)); }
        }
      } else {
        forall i | 0 <= i < |circle|
          ensures circle[i].callback != NO_CALLBACK && circle[i].next == Following(circle, i)
        {
          if i > 0 {
            assert circle[i] != first && circle[i] != cookie;
            assert circle[i] in old(nodes) && circle[i].next == old(circle[i].next);
          } else {
            assert circle[i] == cookie && cookie.next == old(first.next) == Following(circle, 0);
          }
        }
      }
    }

    /** The cookie, followed by the nodes of the chain between the head and it. */
    ghost method OldPart(cookie: Cookie) returns (part: seq<Cookie>)
      requires Valid() && cookie != first && cookie in nodes
      ensures part != [] && part[0] == cookie && forall i :: 0 <= i < |part| ==> part[i] in nodes
      ensures |entries| > 0 && first.callback != NO_CALLBACK
      ensures first.next == Following(part, 0)
      ensures forall i :: 0 < i < |part| ==>
                && part[i] != first && part[i] != cookie && part[i].callback != NO_CALLBACK
                && part[i].next == Following(part, i)
    {
      var k :| 0 < k < |nodes| && nodes[k] == cookie;
      part := [cookie] + nodes[1..k];
      assert NodeAt(0);
      forall i | 0 < i < |part|
        ensures part[i] == nodes[i] && NodeAt(i)
      {
        assert part[i] == nodes[1..k][i - 1];
      }
    }

    /** aptUnhook: the registration made with the cookie goes, wherever it is; any other cookie
        changes nothing. */
    method Unhook(cookie: Cookie)
      requires Valid()
      modifies this, nodes
      ensures Valid() && entries == Without(old(entries), cookie)
      ensures forall i :: 0 <= i < |nodes| ==> nodes[i] in old(nodes)
      ensures cookie != first ==> cookie !in nodes
    {
      var hook: Cookie? := first;
      ghost var k := 0;
      while hook != null && hook.next != cookie
        invariant k <= |nodes| && hook == (if k < |nodes| then nodes[k] else null)
        invariant forall i :: 0 <= i < k && i < |entries| ==> entries[i].cookie != cookie
        decreases |nodes| - k
        modifies {}
      {
        assert NodeAt(k);
        hook := hook.next;
        k := k + 1;
      }
      if hook != null {
        WithoutAt(entries, cookie, k);
        CopyNext(hook, cookie, k);
      } else {
        WithoutNone(entries, cookie);
        forall i | 0 < i < |nodes| ensures nodes[i] != cookie { assert NodeAt(i - 1); }
      }
    }

    /** The node takes over the contents of the one after it, which drops out of the chain. */
    method CopyNext(hook: Cookie, cookie: Cookie, ghost k: nat)
      requires Valid() && k < |nodes| && nodes[k] == hook && hook.next == cookie
      modifies this, hook
      ensures Valid() && k < old(|entries|) && old(entries)[k].cookie == cookie
      ensures entries == old(entries)[..k] + old(entries)[k + 1..]
      ensures nodes == old(nodes)[..k + 1] + old(nodes)[k + 2..] && cookie !in nodes
    {
      assert NodeAt(k);
      assert NodeAt(k + 1);
      hook.next, hook.callback, hook.param := cookie.next, cookie.callback, cookie.param;
      ghost var before := nodes;
      nodes := nodes[..k + 1] + nodes[k + 2..];
      assert forall i :: 0 <= i < |nodes| ==> nodes[i] == before[if i <= k then i else i + 1] != before[k + 1];
      entries := entries[..k] + entries[k + 1..];
      forall i | 0 <= i < |nodes| ensures NodeAt(i) {
        assert i < k ==> old(NodeAt(i));
        assert i >= k ==> old(NodeAt(i + 1));
      }
    }
  }

  lemma {:induction false} WithoutAt(entries: seq<Entry>, cookie: Cookie, k: nat)
    requires forall i :: 0 <= i < k && i < |entries| ==> entries[i].cookie != cookie
    ensures k < |entries| && entries[k].cookie == cookie ==> Without(entries, cookie) == entries[..k] + entries[k + 1..]
  {
    if k > 0 && entries != [] {
      WithoutAt(entries[1..], cookie, k - 1);
      if k < |entries| {
        assert [entries[0]] + (entries[1..][..k - 1] + entries[1..][k..]) == entries[..k] + entries[k + 1..];
      }
    }
  }

  lemma {:induction false} WithoutNone(entries: seq<Entry>, cookie: Cookie)
    requires forall i :: 0 <= i < |entries| ==> entries[i].cookie != cookie
    ensures Without(entries, cookie) == entries
  {
    if entries != [] { WithoutNone(entries[1..], cookie); }
  }

  /** Every node has a callback and leads to the next one, the last to the first. */
  ghost predicate Circular(circle: seq<Cookie>)
    reads circle
  {
    forall i {:trigger circle[i]} :: 0 <= i < |circle| ==>
      circle[i].callback != NO_CALLBACK && circle[i].next == Following(circle, i)
  }

  function Following(circle: seq<Cookie>, i: nat): Cookie
    requires i < |circle|
  {
    if i + 1 < |circle| then circle[i + 1] else circle[0]
  }

  /** Where n steps along the chain lead, as long as they stay within some nodes. */
  ghost function After(c: Cookie?, n: nat, within: seq<Cookie>): Cookie?
    reads within
    decreases n
  {
    if n == 0 || c == null || c !in within then c else After(c.next, n - 1, within)
  }

  /** On a circle, however far one goes, there is another callback to call. */
  lemma {:induction false} NeverEnds(circle: seq<Cookie>, i: nat, n: nat)
    requires i < |circle| && Circular(circle)
    ensures var c := After(circle[i], n, circle); c != null && c in circle && c.callback != NO_CALLBACK
    decreases n
  {
    if n > 0 {
      NeverEnds(circle, if i + 1 < |circle| then i + 1 else 0, n - 1);
    }
  }

  // Histories of registrations.

  datatype Op = Add(entry: Entry) | Remove(cookie: Cookie)

  /** What Hook and Unhook do to the registrations. */
  function Apply(entries: seq<Entry>, op: Op): seq<Entry> {
    match op
    case Add(e) => if e.callback == NO_CALLBACK then entries else [e] + entries
    case Remove(c) => Without(entries, c)
  }

  function Run(ops: seq<Op>): seq<Entry> {
    if ops == [] then [] else Apply(Run(ops[..|ops| - 1]), ops[|ops| - 1])
  }

  function Registered(entries: seq<Entry>): set<Cookie> {
    set e | e in entries :: e.cookie
  }

  /** No cookie is registered twice at a time. */
  predicate Orderly(ops: seq<Op>) {
    ops != [] ==>
      && Orderly(ops[..|ops| - 1])
      && var op := ops[|ops| - 1];
      op.Add? ==> op.entry.cookie !in Registered(Run(ops[..|ops| - 1]))
  }

  /** Operation i is a registration that nothing after it takes back. */
  predicate Live(ops: seq<Op>, i: nat)
    requires i < |ops|
  {
    ops[i].Add? && ops[i].entry.callback != NO_CALLBACK
    && forall j :: i < j < |ops| ==> ops[j] != Remove(ops[i].entry.cookie)
  }

  /** The registrations from operation i on that nothing takes back, newest first. */
  function LiveFrom(ops: seq<Op>, i: nat): seq<Entry>
    requires i <= |ops|
    decreases |ops| - i
  {
    if i == |ops| then [] else LiveFrom(ops, i + 1) + if Live(ops, i) then [ops[i].entry] else []
  }

  /** Whatever the history, the hooks that are called are those registered and not taken back
      since, newest first. */
  lemma {:induction false} RunIsLive(ops: seq<Op>)
    requires Orderly(ops)
    ensures Run(ops) == LiveFrom(ops, 0) && DistinctCookies(Run(ops))
  {
    if ops != [] {
      var before, op := ops[..|ops| - 1], ops[|ops| - 1];
      assert ops == before + [op];
      RunIsLive(before);
      match op {
        case Add(e) => LiveThenAdd(before, e, 0);
        case Remove(c) =>
          LiveThenRemove(before, c, 0);
          WithoutIsFilter(Run(before), c);
      }
    }
  }

  predicate DistinctCookies(entries: seq<Entry>) {
    forall i, j :: 0 <= i < j < |entries| ==> entries[i].cookie != entries[j].cookie
  }

  function Filter(entries: seq<Entry>, cookie: Cookie): seq<Entry> {
    if entries == [] then []
    else (if entries[0].cookie == cookie then [] else [entries[0]]) + Filter(entries[1..], cookie)
  }

  lemma {:induction false} FilterConcat(a: seq<Entry>, b: seq<Entry>, cookie: Cookie)
    ensures Filter(a + b, cookie) == Filter(a, cookie) + Filter(b, cookie)
  {
    if a == [] {
      assert a + b == b;
    } else {
      assert (a + b)[1..] == a[1..] + b;
      FilterConcat(a[1..], b, cookie);
    }
  }

  lemma {:induction false} WithoutIsFilter(entries: seq<Entry>, cookie: Cookie)
    requires DistinctCookies(entries)
    ensures Without(entries, cookie) == Filter(entries, cookie) && DistinctCookies(Without(entries, cookie))
    ensures forall e :: e in Without(entries, cookie) ==> e in entries
  {
    if entries != [] {
      assert entries == [entries[0]] + entries[1..];
      WithoutIsFilter(entries[1..], cookie);
      var rest := Without(entries[1..], cookie);
      if entries[0].cookie == cookie {
        FilterNone(entries[1..], cookie);
      } else {
        forall j | 0 <= j < |rest|
          ensures rest[j].cookie != entries[0].cookie
        {
          assert rest[j] in entries[1..];
        }
      }
    }
  }

  lemma {:induction false} FilterNone(entries: seq<Entry>, cookie: Cookie)
    requires forall i :: 0 <= i < |entries| ==> entries[i].cookie != cookie
    ensures Filter(entries, cookie) == entries
  {
    if entries != [] { FilterNone(entries[1..], cookie); }
  }

  lemma {:induction false} LiveThenAdd(ops: seq<Op>, e: Entry, i: nat)
    requires i <= |ops|
    ensures LiveFrom(ops + [Add(e)], i) == (if e.callback == NO_CALLBACK then [] else [e]) + LiveFrom(ops, i)
    decreases |ops| - i
  {
    var longer := ops + [Add(e)];
    if i < |ops| {
      LiveThenAdd(ops, e, i + 1);
      assert longer[i] == ops[i];
      assert Live(longer, i) == Live(ops, i) by {
        assert forall j :: i < j < |ops| ==> longer[j] == ops[j];
      }
    } else {
      assert Live(longer, i) == (e.callback != NO_CALLBACK);
      assert LiveFrom(longer, i + 1) == [];
    }
  }

  lemma {:induction false} LiveThenRemove(ops: seq<Op>, c: Cookie, i: nat)
    requires i <= |ops|
    ensures LiveFrom(ops + [Remove(c)], i) == Filter(LiveFrom(ops, i), c)
    decreases |ops| - i
  {
    var longer := ops + [Remove(c)];
    if i < |ops| {
      LiveThenRemove(ops, c, i + 1);
      var last := if Live(ops, i) then [ops[i].entry] else [];
      FilterConcat(LiveFrom(ops, i + 1), last, c);
      assert longer[|ops|] == Remove(c);
      assert forall j :: i <= j < |ops| ==> longer[j] == ops[j];
      assert Live(longer, i) == (Live(ops, i) && ops[i].entry.cookie != c);
    } else {
      assert LiveFrom(longer, i + 1) == [];
    }
  }
}
