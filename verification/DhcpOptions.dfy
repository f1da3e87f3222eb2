/**
  The DHCPv6 option lists of the platform HAL: singly linked heap nodes that own their values.

  Freeing an object sets its `freed` mark, which must not be set already, and erases its fields,
  so that neither a second free nor a read after a free goes unnoticed.
 */
module DhcpOptions {
  import opened Wrappers

  const DHCPV4_OPT_END := 255
  const V6_PREFIX_CONFIG := "\n{ prefix ::/64 }"
  const DHCPV6_OPT_VAL_16 := "0x0000118b000a65526f75746572312e30"

  class CString {
    var text: string
    var freed: bool

    constructor (text: string)
      ensures this.text == text && !freed
    {
      this.text, freed := text, false;
    }

    method Free()
      requires !freed
      modifies this
      ensures freed
    {
      text, freed := "", true;
    }
  }

  class OptNode {
    var opt: int
    var val: CString?
    var next: OptNode?
    var freed: bool

    constructor (opt: int, val: CString?)
      ensures this.opt == opt && this.val == val && next == null && !freed
    {
      this.opt, this.val, next, freed := opt, val, null, false;
    }

    method Free()
      requires !freed
      modifies this
      ensures freed
    {
      opt, val, next, freed := 0, null, null, true;
    }
  }

  // A caller's list pointer.  The ghost fields are the nodes of the list in order and their values.
  class OptList {
    var head: OptNode?
    ghost var nodes: seq<OptNode>
    ghost var vals: set<CString>

    // The nodes are linked in order up to null, all blocks are allocated, and no value is shared.
    ghost predicate Valid()
      reads this, nodes, vals
    {
      head == NodeAt(nodes, 0) && Chained()
    }

    ghost predicate Chained()
      reads this, nodes, vals
    {
      && (forall i {:trigger nodes[i].next} :: 0 <= i < |nodes| ==> nodes[i].next == NodeAt(nodes, i + 1))
      && (forall n :: n in nodes ==> !n.freed)
      && (forall i, j :: 0 <= i < j < |nodes| ==> nodes[i] != nodes[j])
      && (forall i, j :: 0 <= i < j < |nodes| && nodes[i].val != null ==> nodes[i].val != nodes[j].val)
      && (forall i :: 0 <= i < |nodes| && nodes[i].val != null ==> nodes[i].val in vals)
      && forall v :: v in vals ==> !v.freed && exists i :: 0 <= i < |nodes| && nodes[i].val == v
    }

    // add_dhcp_opt_to_list; ok tells whether malloc succeeds.
    method Add(opt: int, val: CString?, ok: bool) returns (ret: bool)
      requires Valid()
      requires val != null ==> !val.freed && val !in vals
      modifies this
      ensures Valid()
      ensures ret <==> 0 < opt < 255 && ok
      ensures !ret ==> nodes == old(nodes) && vals == old(vals)
      ensures ret ==> nodes != [] && nodes[1..] == old(nodes) && fresh(nodes[0])
      ensures ret ==> nodes[0].opt == opt && nodes[0].val == val
      ensures ret ==> vals == old(vals) + if val == null then {} else {val}
    {
      if opt <= 0 || opt >= DHCPV4_OPT_END {
        return false;
      }
      if !ok {
        return false;
      }
      var n := new OptNode(opt, val);
      if head != null {
        n.next := head;
      }
      head := n;
      Record(n);
      return true;
    }

    // Ghost bookkeeping for a new first node.
    ghost method Record(n: OptNode)
      requires head == n && n.next == NodeAt(nodes, 0) && n !in nodes && !n.freed
      requires n.val != null ==> !n.val.freed && n.val !in vals
      requires Chained()
      modifies this`nodes, this`vals
      ensures Valid() && nodes == [n] + old(nodes)
      ensures vals == old(vals) + if n.val == null then {} else {n.val}
    {
      ghost var before, listed := nodes, vals;
      nodes := [n] + nodes;
      forall i | 0 < i < |nodes|
        ensures nodes[i] == before[i - 1] && nodes[i].next == NodeAt(nodes, i + 1)
        ensures nodes[i].val != null ==> nodes[i].val in listed
      {
        assert before[i - 1].next == NodeAt(before, i);
      }
      forall v | v in listed
        ensures !v.freed && exists i :: 0 <= i < |nodes| && nodes[i].val == v
      {
        var i :| 0 <= i < |before| && before[i].val == v;
        assert nodes[i + 1].val == v;
      }
      if n.val != null {
        vals := vals + {n.val};
        assert nodes[0].val == n.val;
      }
    }

    // free_dhcp_opt_list, after which the caller clears the pointer: everything on the list is
    // freed, once.
    method FreeAll()
      requires Valid()
      modifies this, nodes, vals
      ensures Valid() && head == null && nodes == [] && vals == {}
      ensures forall n :: n in old(nodes) ==> n.freed
      ensures forall v :: v in old(vals) ==> v.freed
    {
      var p := head;
      ghost var i := 0;
      while p != null
        invariant i <= |nodes| && p == NodeAt(nodes, i) && nodes == old(nodes) && vals == old(vals)
        invariant forall j :: 0 <= j < i ==> nodes[j].freed && (old(nodes[j].val) != null ==> old(nodes[j].val).freed)
        invariant forall j :: i <= j < |nodes| ==> unchanged(nodes[j]) && (nodes[j].val != null ==> !nodes[j].val.freed)
        decreases |nodes| - i
      {
        var tmp := p;
        p := p.next;
        if tmp.val != null {
          tmp.val.Free();
        }
        tmp.Free();
        i := i + 1;
      }
      head, nodes, vals := null, [], {};
    }
  }

  function NodeAt(ns: seq<OptNode>, i: nat): OptNode? {
    if i < |ns| then ns[i] else null
  }

  // strdup, or malloc and copy.
  method NewText(text: string, ok: bool) returns (s: CString?)
    ensures ok ==> s != null && fresh(s) && s.text == text && !s.freed
    ensures !ok ==> s == null
  {
    s := null;
    if ok {
      s := new CString(text);
    }
  }

  // The allocations of one build, in order.
  datatype Site = Node5 | Node23 | Node24 | Text25 | Node25 | Text16 | Node16 | Text17 | Node17

  // The allocation whose failure ends the build; vendor is the option 17 text if the vendor file
  // exists.  A failed strdup does not end it.
  function FirstFailure(ok: Site -> bool, vendor: Option<string>): Option<Site> {
    if !ok(Node5) then Some(Node5)
    else if !ok(Node23) then Some(Node23)
    else if !ok(Node24) then Some(Node24)
    else if !ok(Node25) then Some(Node25)
    else if !ok(Node16) then Some(Node16)
    else if vendor.Some? && !ok(Text17) then Some(Text17)
    else if vendor.Some? && !ok(Node17) then Some(Node17)
    else None
  }

  // The failing allocation was that of a node whose text had already been allocated.
  predicate Leaks(ok: Site -> bool, vendor: Option<string>) {
    match FirstFailure(ok, vendor)
    case Some(Node25) => ok(Text25)
    case Some(Node16) => ok(Text16)
    case Some(Node17) => true
    case _ => false
  }

  // An allocation pattern that leaks.
  lemma LeakExample()
    ensures Leaks(s => s != Node25, None)
  {
  }

  datatype Opt = Opt(tag: int, text: Option<string>)

  ghost predicate Carries(n: OptNode, e: Opt)
    reads n, n.val
  {
    n.opt == e.tag && if n.val == null then e.text.None? else e.text == Some(n.val.text)
  }

  // The node's value.
  ghost predicate HasText(n: OptNode, text: Option<string>)
    reads n, n.val
  {
    if n.val == null then text.None? else text == Some(n.val.text)
  }

  // What a successful build puts in front of the lists, last added first.
  function RequestOpts(): seq<Opt> {
    [Opt(24, None), Opt(23, None), Opt(5, None)]
  }

  function SendOpts(ok: Site -> bool, vendor: Option<string>): seq<Opt> {
    var o16 := Opt(16, if ok(Text16) then Some(DHCPV6_OPT_VAL_16) else None);
    var o25 := Opt(25, if ok(Text25) then Some(V6_PREFIX_CONFIG) else None);
    if vendor.Some? then [Opt(17, vendor), o16, o25] else [o16, o25]
  }

  // One more call of Add on a list that is made followed by start.
  method AddNext(l: OptList, opt: int, val: CString?, ok: bool, ghost made: seq<OptNode>, ghost start: seq<OptNode>)
    returns (ret: bool, ghost made': seq<OptNode>)
    requires l.Valid() && l.nodes == made + start
    requires val != null ==> !val.freed && val !in l.vals
    modifies l
    ensures l.Valid() && l.nodes == made' + start
    ensures ret <==> 0 < opt < 255 && ok
    ensures !ret ==> made' == made && l.vals == old(l.vals)
    ensures ret ==> |made'| == |made| + 1 && made'[1..] == made && fresh(made'[0])
    ensures ret ==> made'[0].opt == opt && made'[0].val == val
    ensures ret ==> l.vals == old(l.vals) + if val == null then {} else {val}
  {
    ret := l.Add(opt, val, ok);
    made' := made;
    if ret {
      made' := [l.nodes[0]] + made;
      assert l.nodes == [l.nodes[0]] + l.nodes[1..];
    }
  }

  method AddRequests(req: OptList, ok: Site -> bool) returns (ret: bool, ghost made: seq<OptNode>)
    requires req.Valid()
    modifies req
    ensures req.Valid() && req.vals == old(req.vals) && req.nodes == made + old(req.nodes)
    ensures ret <==> ok(Node5) && ok(Node23) && ok(Node24)
    ensures forall i :: 0 <= i < |made| ==> fresh(made[i])
    ensures ret ==> |made| == 3 && forall i :: 0 <= i < 3 ==> made[i].val == null && Carries(made[i], RequestOpts()[i])
  {
    ghost var start := req.nodes;
    made := [];
    assert made + start == start;
    ret, made := AddNext(req, 5, null, ok(Node5), made, start);
    if !ret {
      return;
    }
    ghost var n5 := made[0];
    ret, made := AddNext(req, 23, null, ok(Node23), made, start);
    if !ret {
      return;
    }
    ghost var n23 := made[0];
    assert made[1] == made[1..][0] == n5;
    ret, made := AddNext(req, 24, null, ok(Node24), made, start);
    if ret {
      assert made[1] == made[1..][0] == n23 && made[2] == made[1..][1] == n5;
    }
  }

  // Add an option whose value is strdup'ed on the way; text is the copy.
  method AddCopy(l: OptList, opt: int, value: string, okText: bool, okNode: bool,
                 ghost made: seq<OptNode>, ghost start: seq<OptNode>)
    returns (ret: bool, ghost made': seq<OptNode>, ghost text: set<CString>)
    requires l.Valid() && l.nodes == made + start && 0 < opt < DHCPV4_OPT_END
    modifies l
    ensures l.Valid() && l.nodes == made' + start
    ensures ret <==> okNode
    ensures text == {} <==> !okText
    ensures forall t :: t in text ==> fresh(t) && !t.freed
    ensures l.vals == (if ret then old(l.vals) + text else old(l.vals)) && text !! old(l.vals)
    ensures !ret ==> made' == made
    ensures ret ==> |made'| == |made| + 1 && made'[1..] == made && fresh(made'[0])
    ensures ret ==> Carries(made'[0], Opt(opt, if okText then Some(value) else None))
    ensures ret && made'[0].val != null ==> fresh(made'[0].val)
  {
    var s := NewText(value, okText);
    text := if s == null then {} else {s};
    ret, made' := AddNext(l, opt, s, okNode, made, start);
  }

  // add_dhcpv6_option_17, which gives up if its value cannot be allocated.
  method AddOption17(l: OptList, vendor: Option<string>, okText: bool, okNode: bool,
                     ghost made: seq<OptNode>, ghost start: seq<OptNode>)
    returns (ret: bool, ghost made': seq<OptNode>, ghost text: set<CString>)
    requires l.Valid() && l.nodes == made + start
    modifies l
    ensures l.Valid() && l.nodes == made' + start
    ensures ret <==> (vendor.Some? ==> okText && okNode)
    ensures text == {} <==> vendor.None? || !okText
    ensures forall t :: t in text ==> fresh(t) && !t.freed
    ensures l.vals == (if ret then old(l.vals) + text else old(l.vals)) && text !! old(l.vals)
    ensures !ret || vendor.None? ==> made' == made
    ensures ret && vendor.Some? ==> |made'| == |made| + 1 && made'[1..] == made && fresh(made'[0])
    ensures ret && vendor.Some? ==> Carries(made'[0], Opt(17, vendor))
  {
    if vendor.None? {
      return true, made, {};
    }
    if !okText {
      return false, made, {};
    }
    ret, made', text := AddCopy(l, 17, vendor.value, okText, okNode, made, start);
  }

  // The two fixed options.
  method AddFixed(send: OptList, ok: Site -> bool)
    returns (ret: bool, ghost made: seq<OptNode>, ghost texts: set<CString>)
    requires send.Valid()
    modifies send
    ensures send.Valid() && send.nodes == made + old(send.nodes)
    ensures ret <==> ok(Node25) && ok(Node16)
    ensures forall i :: 0 <= i < |made| ==> fresh(made[i])
    ensures forall t :: t in texts ==> fresh(t) && !t.freed
    ensures old(send.vals) <= send.vals <= old(send.vals) + texts
    ensures ret ==> send.vals == old(send.vals) + texts && |made| == 2
    ensures !ret ==> (!(texts <= send.vals) <==> if ok(Node25) then ok(Text16) else ok(Text25))
    ensures ret ==> Carries(made[0], SendOpts(ok, None)[0]) && Carries(made[1], SendOpts(ok, None)[1])
    ensures ret ==> forall i :: 0 <= i < 2 && made[i].val != null ==> fresh(made[i].val)
  {
    ghost var start, text := send.nodes, {};
    made := [];
    assert made + start == start;
    ret, made, texts := AddCopy(send, 25, V6_PREFIX_CONFIG, ok(Text25), ok(Node25), made, start);
    if !ret {
      return;
    }
    ghost var n25 := made[0];
    ret, made, text := AddCopy(send, 16, DHCPV6_OPT_VAL_16, ok(Text16), ok(Node16), made, start);
    texts := texts + text;
    if ret {
      assert made[1] == made[1..][0] == n25;
      assert Carries(n25, SendOpts(ok, None)[1]);
    }
  }

  method AddSend(send: OptList, ok: Site -> bool, vendor: Option<string>)
    returns (ret: bool, ghost made: seq<OptNode>, ghost texts: set<CString>)
    requires send.Valid()
    modifies send
    ensures send.Valid() && send.nodes == made + old(send.nodes)
    ensures ret <==> ok(Node25) && ok(Node16) && (vendor.Some? ==> ok(Text17) && ok(Node17))
    ensures forall i :: 0 <= i < |made| ==> fresh(made[i])
    ensures forall t :: t in texts ==> fresh(t) && !t.freed
    ensures old(send.vals) <= send.vals <= old(send.vals) + texts
    ensures ok(Node5) && ok(Node23) && ok(Node24) ==> (!(texts <= send.vals) <==> Leaks(ok, vendor))
    ensures ret ==> send.vals == old(send.vals) + texts && |made| == |SendOpts(ok, vendor)|
    ensures ret ==> forall i :: 0 <= i < |made| ==> Carries(made[i], SendOpts(ok, vendor)[i])
  {
    ghost var start, text := send.nodes, {};
    ret, made, texts := AddFixed(send, ok);
    if !ret {
      return;
    }
    ret, made, text := AddOption17(send, vendor, ok(Text17), ok(Node17), made, start);
    texts := texts + text;
    if ret && vendor.Some? {
      assert made[1] == made[1..][0] && made[2] == made[1..][1];
    }
  }

  // platform_hal_GetDhcpv6_Options.  Either every list node could be allocated and both lists
  // have grown by the wanted options in reverse order of the calls, or both lists are empty and
  // every node and value that was on them, old or new, has been freed.  Of the texts allocated by
  // the call one is then left neither listed nor freed exactly if its node failed.
  method GetDhcpv6Options(req: OptList?, send: OptList?, ok: Site -> bool, vendor: Option<string>)
    returns (ret: bool, ghost newReq: seq<OptNode>, ghost newSend: seq<OptNode>, ghost texts: set<CString>)
    requires req != null && send != null ==> Separate(req, send)
    modifies req, send
    modifies if req != null && send != null then (set o: object | o in req.nodes || o in send.nodes) else {}
    modifies if req != null && send != null then req.vals + send.vals else {}
    ensures ret <==> (req != null && send != null && ok(Node5) && ok(Node23) && ok(Node24) && ok(Node25) && ok(Node16)
                      && (vendor.Some? ==> ok(Text17) && ok(Node17)))
    ensures (req == null || send == null) ==> (req != null ==> unchanged(req)) && (send != null ==> unchanged(send))
    ensures req != null && send != null ==> Separate(req, send)
    ensures ret ==>
      && req.nodes == newReq + old(req.nodes) && |newReq| == 3
      && send.nodes == newSend + old(send.nodes)
      && (forall n :: n in old(req.nodes) || n in old(send.nodes) ==> unchanged(n))
    ensures ret ==>
      && newReq[0].opt == 24 && newReq[1].opt == 23 && newReq[2].opt == 5
      && newReq[0].val == newReq[1].val == newReq[2].val == null
    ensures ret ==>
      var n := |newSend|;
      && n == (if vendor.Some? then 3 else 2)
      && newSend[n - 1].opt == 25 && HasText(newSend[n - 1], if ok(Text25) then Some("\n{ prefix ::/64 }") else None)
      && newSend[n - 2].opt == 16
      && HasText(newSend[n - 2], if ok(Text16) then Some("0x0000118b000a65526f75746572312e30") else None)
      && (vendor.Some? ==> newSend[0].opt == 17 && HasText(newSend[0], vendor))
    ensures !ret && req != null && send != null ==>
      && req.head == null && send.head == null
      && (forall n :: n in newReq + old(req.nodes) || n in newSend + old(send.nodes) ==> n.freed)
      && (forall v :: v in old(req.vals) || v in old(send.vals) ==> v.freed)
      && ((exists t :: t in texts && !t.freed)
            <==> (ok(Node5) && ok(Node23) && ok(Node24)
                  && ok(if !ok(Node25) then Text25 else if !ok(Node16) then Text16 else Text17)))
    ensures forall t :: t in texts ==> fresh(t)
    ensures ret ==> texts <= send.vals && forall t :: t in texts ==> !t.freed
  {
    if req == null || send == null {
      return false, [], [], {};
    }
    ret, newReq, newSend, texts := Build(req, send, ok, vendor);
    if ret {
      assert Carries(newReq[0], Opt(24, None)) && Carries(newReq[1], Opt(23, None)) && Carries(newReq[2], Opt(5, None));
      assert Carries(newSend[|newSend| - 2], SendOpts(ok, vendor)[|newSend| - 2]);
      assert Carries(newSend[|newSend| - 1], SendOpts(ok, vendor)[|newSend| - 1]);
    }
  }

  // The body behind the null check.
  method Build(req: OptList, send: OptList, ok: Site -> bool, vendor: Option<string>)
    returns (ret: bool, ghost newReq: seq<OptNode>, ghost newSend: seq<OptNode>, ghost texts: set<CString>)
    requires Separate(req, send)
    modifies req, send, req.nodes, send.nodes, req.vals, send.vals
    ensures ret <==> FirstFailure(ok, vendor).None?
    ensures Separate(req, send)
    ensures ret ==>
      && req.nodes == newReq + old(req.nodes) && |newReq| == 3
      && send.nodes == newSend + old(send.nodes) && |newSend| == |SendOpts(ok, vendor)|
      && (forall i :: 0 <= i < 3 ==> Carries(newReq[i], RequestOpts()[i]))
      && (forall i :: 0 <= i < |newSend| ==> Carries(newSend[i], SendOpts(ok, vendor)[i]))
      && (forall n :: n in old(req.nodes) || n in old(send.nodes) ==> unchanged(n))
    ensures !ret ==>
      && req.head == null && send.head == null
      && (forall n :: n in newReq + old(req.nodes) || n in newSend + old(send.nodes) ==> n.freed)
      && (forall v :: v in old(req.vals) || v in old(send.vals) ==> v.freed)
      && ((exists t :: t in texts && !t.freed) <==> Leaks(ok, vendor))
    ensures forall t :: t in texts ==> fresh(t)
    ensures ret ==> texts <= send.vals && forall t :: t in texts ==> !t.freed
  {
    newSend, texts := [], {};
    ret, newReq := AddRequests(req, ok);
    assert forall n :: n in req.nodes <==> n in newReq || n in old(req.nodes);
    if !ret {
      FreeBoth(req, send);
      return;
    }
    label requested:
    assert forall i :: 0 <= i < 3 ==> newReq[i] in req.nodes;
    ret, newSend, texts := BuildSend(req, send, ok, vendor);
    if ret {
      assert forall i :: 0 <= i < 3 ==> unchanged@requested(newReq[i]) && newReq[i].val == null;
    }
  }

  // The send options, and the clean-up if they fail.
  method BuildSend(req: OptList, send: OptList, ok: Site -> bool, vendor: Option<string>)
    returns (ret: bool, ghost newSend: seq<OptNode>, ghost texts: set<CString>)
    requires Separate(req, send) && ok(Node5) && ok(Node23) && ok(Node24)
    modifies req, send, req.nodes, send.nodes, req.vals, send.vals
    ensures ret <==> FirstFailure(ok, vendor).None?
    ensures Separate(req, send)
    ensures ret ==> unchanged(req) && (forall n :: n in old(req.nodes) || n in old(send.nodes) ==> unchanged(n))
    ensures ret ==> send.nodes == newSend + old(send.nodes) && |newSend| == |SendOpts(ok, vendor)|
    ensures ret ==> forall i :: 0 <= i < |newSend| ==> Carries(newSend[i], SendOpts(ok, vendor)[i])
    ensures !ret ==>
      && req.head == null && send.head == null
      && (forall n :: n in old(req.nodes) || n in newSend + old(send.nodes) ==> n.freed)
      && (forall v :: v in old(req.vals) || v in old(send.vals) ==> v.freed)
      && ((exists t :: t in texts && !t.freed) <==> Leaks(ok, vendor))
    ensures forall t :: t in texts ==> fresh(t)
    ensures ret ==> texts <= send.vals && forall t :: t in texts ==> !t.freed
  {
    ret, newSend, texts := AddSend(send, ok, vendor);
    assert forall n :: n in send.nodes <==> n in newSend || n in old(send.nodes);
    if !ret {
      FreeBoth(req, send);
    }
  }

  method FreeBoth(req: OptList, send: OptList)
    requires Separate(req, send)
    modifies req, send, req.nodes, send.nodes, req.vals, send.vals
    ensures Separate(req, send) && req.head == null && send.head == null
    ensures forall n :: n in old(req.nodes) || n in old(send.nodes) ==> n.freed
    ensures forall v :: v in old(req.vals) || v in old(send.vals) ==> v.freed
    ensures req.nodes == send.nodes == []
  {
    req.FreeAll();
    StaysValid(send);
    label one:
    send.FreeAll();
    assert forall n :: n in old(req.nodes) ==> unchanged@one(n);
  }

  twostate lemma StaysValid(l: OptList)
    requires old(l.Valid()) && unchanged(l)
    requires forall n :: n in l.nodes ==> unchanged(n)
    requires forall v :: v in l.vals ==> unchanged(v)
    ensures l.Valid()
  {
    forall i | 0 <= i < |l.nodes|
      ensures l.nodes[i].next == old(l.nodes[i].next) && l.nodes[i].val == old(l.nodes[i].val)
    {
      assert l.nodes[i] in l.nodes;
    }
  }

  // Two well-formed lists that share no memory.
  ghost predicate Separate(req: OptList, send: OptList)
    reads req, send, req.nodes, send.nodes, req.vals, send.vals
  {
    && req != send && req.Valid() && send.Valid()
    && (forall n :: n in req.nodes ==> n !in send.nodes)
    && req.vals !! send.vals
  }
}
