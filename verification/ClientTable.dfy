/** The hash table of doubly linked chains in which server and clients keep their records. */
module ClientTable {
  import opened KidVpn

  const HASH_SIZE := 256

  /** `kv_lib_cli_hash` */
  function Hash(m: Mac): (h: nat)
    ensures h < HASH_SIZE
  {
    (m[0] + m[1] + m[2] + m[3] + m[4] + m[5]) % HASH_SIZE
  }

  /** `struct kv_cli_node`, with the state that a client adds in `struct kv_cli_hp`. */
  class CliNode {
    var next: CliNode?
    var prev: CliNode?
    const hwaddr: Mac
    var addr: Addr
    var alive: int
    var stat: int

    constructor (m: Mac, a: Addr, alive: int)
      ensures hwaddr == m && addr == a && this.alive == alive && stat == CLOSE && next == null && prev == null
    {
      hwaddr, addr, this.alive, stat, next, prev := m, a, alive, CLOSE, null, null;
    }

    function Data(): Rec reads this { Rec(addr, alive, stat) }
  }

  function NodeAt(ch: seq<CliNode>, i: int): CliNode? {
    if 0 <= i < |ch| then ch[i] else null
  }

  /** The two links of a node. */
  datatype Links = Links(next: CliNode?, prev: CliNode?)

  /** A chain as the code sees it: first node, and links both ways. */
  ghost predicate Linked(head: CliNode?, ch: seq<CliNode>, links: map<CliNode, Links>) {
    head == NodeAt(ch, 0) &&
    forall i :: 0 <= i < |ch| ==> ch[i] in links && links[ch[i]] == Links(NodeAt(ch, i + 1), NodeAt(ch, i - 1))
  }

  ghost predicate AllLinked(heads: seq<CliNode?>, chains: seq<seq<CliNode>>, links: map<CliNode, Links>) {
    |heads| == |chains| == HASH_SIZE && forall h :: 0 <= h < HASH_SIZE ==> Linked(heads[h], chains[h], links)
  }

  ghost predicate NoTwice(ch: seq<CliNode>) {
    forall i, j :: 0 <= i < j < |ch| ==> ch[i] != ch[j]
  }

  /** One node per MAC. */
  ghost predicate Distinct(repr: set<CliNode>) {
    forall a, b :: a in repr && b in repr && a.hwaddr == b.hwaddr ==> a == b
  }

  /** The chains hold exactly the nodes of `repr`, each once, in its own bucket. */
  ghost predicate Shaped(chains: seq<seq<CliNode>>, repr: set<CliNode>) {
    |chains| == HASH_SIZE && Distinct(repr) &&
    (forall n :: n in repr ==> n in chains[Hash(n.hwaddr)]) &&
    (forall h, i ::
      0 <= h < HASH_SIZE && 0 <= i < |chains[h]| ==> chains[h][i] in repr && Hash(chains[h][i].hwaddr) == h) &&
    (forall h :: 0 <= h < HASH_SIZE ==> NoTwice(chains[h]))
  }

  lemma ShapedAdd(chains: seq<seq<CliNode>>, repr: set<CliNode>, cli: CliNode)
    requires Shaped(chains, repr) && forall n :: n in repr ==> n.hwaddr != cli.hwaddr
    ensures Shaped(chains[Hash(cli.hwaddr) := [cli] + chains[Hash(cli.hwaddr)]], repr + {cli})
  {
    hide Hash;
    var h := Hash(cli.hwaddr);
    var ch := [cli] + chains[h];
    assert forall i :: 0 < i < |ch| ==> ch[i] == chains[h][i - 1];
    assert forall n :: n in chains[h] ==> n in ch;
  }

  lemma ShapedDelete(chains: seq<seq<CliNode>>, repr: set<CliNode>, h: nat, k: nat)
    requires Shaped(chains, repr) && h < HASH_SIZE && k < |chains[h]|
    ensures Shaped(chains[h := chains[h][..k] + chains[h][k + 1..]], repr - {chains[h][k]})
  {
    hide Hash;
    var ch := chains[h];
    var ch' := ch[..k] + ch[k + 1..];
    assert forall i :: 0 <= i < |ch'| ==> ch'[i] == ch[if i < k then i else i + 1];
    forall n | n in ch && n != ch[k] ensures n in ch' {
      var i :| 0 <= i < |ch| && ch[i] == n;
      assert n == ch'[if i < k then i else i - 1];
    }
  }

  lemma ShapedDistinct(chains: seq<seq<CliNode>>, repr: set<CliNode>)
    requires Shaped(chains, repr)
    ensures Distinct(repr)
  {
  }

  lemma ShapedParts(chains: seq<seq<CliNode>>, repr: set<CliNode>, h: nat)
    requires Shaped(chains, repr) && h < HASH_SIZE
    ensures |chains| == HASH_SIZE && NoTwice(chains[h])
    ensures forall i :: 0 <= i < |chains[h]| ==> chains[h][i] in repr && Hash(chains[h][i].hwaddr) == h
    ensures forall n :: n in repr && Hash(n.hwaddr) == h ==> n in chains[h]
  {
  }

  // ------------------------------------------------------------ chains as values

  /** The links after a node was put in front of `head`. */
  ghost function LinksAdded(links: map<CliNode, Links>, head: CliNode?, cli: CliNode): map<CliNode, Links> {
    var l := links[cli := Links(head, null)];
    if head != null && head in links then l[head := Links(links[head].next, cli)] else l
  }

  lemma AddLinked(heads: seq<CliNode?>, chains: seq<seq<CliNode>>, links: map<CliNode, Links>, repr: set<CliNode>,
                  cli: CliNode)
    requires Shaped(chains, repr) && AllLinked(heads, chains, links) && cli !in repr
    ensures var h := Hash(cli.hwaddr);
            AllLinked(heads[h := cli], chains[h := [cli] + chains[h]], LinksAdded(links, heads[h], cli))
  {
    hide Hash, Shaped, NoTwice;
    var h := Hash(cli.hwaddr);
    var links' := LinksAdded(links, heads[h], cli);
    forall g | 0 <= g < HASH_SIZE && g != h ensures Linked(heads[g], chains[g], links') {
      ShapedParts(chains, repr, g);
      ShapedParts(chains, repr, h);
    }
    ShapedParts(chains, repr, h);
    AddedChain(heads[h], chains[h], links, cli);
  }

  lemma AddedChain(head: CliNode?, ch: seq<CliNode>, links: map<CliNode, Links>, cli: CliNode)
    requires Linked(head, ch, links) && NoTwice(ch) && cli !in ch
    ensures Linked(cli, [cli] + ch, LinksAdded(links, head, cli))
  {
    var ch', links' := [cli] + ch, LinksAdded(links, head, cli);
    forall i | 0 <= i < |ch'| ensures ch'[i] in links' &&
        links'[ch'[i]] == Links(NodeAt(ch', i + 1), NodeAt(ch', i - 1)) {
      if i > 0 { assert ch'[i] == ch[i - 1]; }
    }
  }

  /** The links after the neighbours of a node were joined. */
  ghost function LinksDeleted(links: map<CliNode, Links>, cli: CliNode): map<CliNode, Links>
    requires cli in links
  {
    var p, n := links[cli].prev, links[cli].next;
    var l := if n != null && n in links then links[n := Links(links[n].next, p)] else links;
    if p != null && p in l then l[p := Links(n, l[p].prev)] else l
  }

  lemma DeleteLinked(heads: seq<CliNode?>, chains: seq<seq<CliNode>>, links: map<CliNode, Links>, repr: set<CliNode>,
                     h: nat, k: nat)
    requires Shaped(chains, repr) && AllLinked(heads, chains, links) && h < HASH_SIZE && k < |chains[h]|
    ensures var cli := chains[h][k];
            cli in links &&
            AllLinked(if heads[h] == cli then heads[h := links[cli].next] else heads,
                      chains[h := chains[h][..k] + chains[h][k + 1..]], LinksDeleted(links, cli))
  {
    hide Hash, Shaped, NoTwice, Linked, LinksDeleted;
    var cli := chains[h][k];
    ShapedParts(chains, repr, h);
    DeletedChain(heads[h], chains[h], links, k);
    var links' := LinksDeleted(links, cli);
    forall g | 0 <= g < HASH_SIZE && g != h ensures Linked(heads[g], chains[g], links') {
      ShapedParts(chains, repr, g);
      OtherChain(heads[h], chains[h], heads[g], chains[g], links, k);
    }
    LinkAt(heads[h], chains[h], links, k);
  }

  lemma LinkAt(head: CliNode?, ch: seq<CliNode>, links: map<CliNode, Links>, i: nat)
    requires Linked(head, ch, links)
    ensures head == NodeAt(ch, 0)
    ensures i < |ch| ==> ch[i] in links && links[ch[i]] == Links(NodeAt(ch, i + 1), NodeAt(ch, i - 1))
  {
  }

  lemma OtherChain(head: CliNode?, ch: seq<CliNode>, head': CliNode?, ch': seq<CliNode>, links: map<CliNode, Links>,
                   k: nat)
    requires Linked(head, ch, links) && Linked(head', ch', links) && k < |ch|
    requires forall i, j :: 0 <= i < |ch| && 0 <= j < |ch'| ==> ch[i] != ch'[j]
    ensures ch[k] in links && Linked(head', ch', LinksDeleted(links, ch[k]))
  {
    LinkAt(head, ch, links, k);
  }

  lemma DeletedChain(head: CliNode?, ch: seq<CliNode>, links: map<CliNode, Links>, k: nat)
    requires Linked(head, ch, links) && NoTwice(ch) && k < |ch|
    ensures ch[k] in links && (head == ch[k] <==> k == 0)
    ensures Linked(if k == 0 then NodeAt(ch, 1) else head, ch[..k] + ch[k + 1..], LinksDeleted(links, ch[k]))
  {
    hide Linked, LinksDeleted;
    LinkAt(head, ch, links, k);
    var ch', links' := ch[..k] + ch[k + 1..], LinksDeleted(links, ch[k]);
    forall i | 0 <= i < |ch'| ensures ch'[i] in links' &&
        links'[ch'[i]] == Links(NodeAt(ch', i + 1), NodeAt(ch', i - 1)) {
      SkipAt(ch, k, i);
      SkipAt(ch, k, i + 1);
      SkipAt(ch, k, i - 1);
      DeletedAt(head, ch, links, k, if i < k then i else i + 1);
    }
    SkipAt(ch, k, 0);
    LinkedIs(if k == 0 then NodeAt(ch, 1) else head, ch', links');
  }

  lemma LinkedIs(head: CliNode?, ch: seq<CliNode>, links: map<CliNode, Links>)
    requires head == NodeAt(ch, 0)
    requires forall i :: 0 <= i < |ch| ==> ch[i] in links && links[ch[i]] == Links(NodeAt(ch, i + 1), NodeAt(ch, i - 1))
    ensures Linked(head, ch, links)
  {
  }

  lemma DeletedAt(head: CliNode?, ch: seq<CliNode>, links: map<CliNode, Links>, k: nat, j: nat)
    requires Linked(head, ch, links) && NoTwice(ch) && k < |ch| && j < |ch| && j != k
    ensures ch[k] in links && ch[j] in LinksDeleted(links, ch[k])
    ensures LinksDeleted(links, ch[k])[ch[j]] ==
            Links(NodeAt(ch, if j + 1 == k then k + 1 else j + 1), NodeAt(ch, if j - 1 == k then k - 1 else j - 1))
  {
    hide Linked;
    LinkAt(head, ch, links, k);
    LinkAt(head, ch, links, j);
    if k + 1 < |ch| { LinkAt(head, ch, links, k + 1); }
    if k > 0 { LinkAt(head, ch, links, k - 1); }
  }

  lemma SkipAt(ch: seq<CliNode>, k: nat, i: int)
    requires k < |ch|
    ensures NodeAt(ch[..k] + ch[k + 1..], i) == NodeAt(ch, if i < k then i else i + 1)
  {
  }

  ghost function LinksOf(repr: set<CliNode>): map<CliNode, Links>
    reads repr
  {
    map n | n in repr :: Links(n.next, n.prev)
  }

  ghost function DataOf(repr: set<CliNode>): map<CliNode, Rec>
    reads repr
  {
    map n | n in repr :: n.Data()
  }

  /** The records by MAC. */
  ghost function ByMac(data: map<CliNode, Rec>): Table {
    if Distinct(data.Keys) then map n | n in data :: n.hwaddr := data[n] else map[]
  }

  // ------------------------------------------------------------------ the table

  class Chains {
    const header: array<CliNode?>
    ghost var chains: seq<seq<CliNode>>
    ghost var repr: set<CliNode>

    ghost predicate Valid()
      reads this, header, repr
    {
      header.Length == HASH_SIZE && Shaped(chains, repr) && AllLinked(header[..], chains, LinksOf(repr))
    }

    ghost function View(): Table
      reads this, repr
    {
      ByMac(DataOf(repr))
    }

    constructor ()
      ensures Valid() && fresh(header) && repr == {} && View() == map[]
    {
      header := new CliNode?[HASH_SIZE](_ => null);
      chains := seq(HASH_SIZE, _ => []);
      repr := {};
    }

    /** `kv_lib_cli_find` */
    method Find(m: Mac) returns (cli: CliNode?)
      requires Valid()
      ensures cli == null <==> m !in View()
      ensures cli != null ==> cli in repr && cli.hwaddr == m
    {
      hide Shaped, Hash, AllLinked, ByMac, NoTwice, LinksOf;
      var h := Hash(m);
      ShapedParts(chains, repr, h);
      FirstLinked(header[..], chains, LinksOf(repr), h);
      cli := header[h];
      ghost var ch, i := chains[h], 0;
      ShapedDistinct(chains, repr);
      ByMacKeys(DataOf(repr));
      while cli != null
        invariant 0 <= i <= |ch| && cli == NodeAt(ch, i)
        invariant forall j :: 0 <= j < i ==> ch[j].hwaddr != m
        decreases |ch| - i
      {
        if cli.hwaddr == m {
          return;
        }
        NextLinked(header[..], chains, repr, h, i);
        cli := cli.next;
        i := i + 1;
      }
    }

    /** `kv_lib_cli_add`, of a node whose MAC is not in the table. */
    method Add(cli: CliNode)
      requires Valid() && cli.hwaddr !in View()
      modifies this, header, repr, cli
      ensures Valid() && repr == old(repr) + {cli}
      ensures View() == old(View())[cli.hwaddr := old(cli.Data())]
    {
      hide Hash, Shaped, AllLinked, NoTwice, ByMac, LinksOf, DataOf, LinksAdded;
      var h := Hash(cli.hwaddr);
      ghost var data := DataOf(repr);
      AddReady(chains, repr, header[..], cli);
      ByMacAdd(data, cli, cli.Data());
      PutFirst(header, h, cli, repr);
      chains := chains[h := [cli] + chains[h]];
      repr := repr + {cli};
    }

    /** New contents for the fields of a node that are not links. */
    method Store(cli: CliNode, r: Rec)
      requires Valid() && cli in repr
      modifies cli
      ensures Valid() && DataOf(repr) == old(DataOf(repr))[cli := r] && View() == old(View())[cli.hwaddr := r]
      ensures cli.next == old(cli.next)
    {
      hide Shaped, AllLinked, ByMac;
      ghost var links, data := LinksOf(repr), DataOf(repr);
      ShapedDistinct(chains, repr);
      cli.addr, cli.alive, cli.stat := r.addr, r.alive, r.stat;
      assert LinksOf(repr) == links;
      ByMacUpdate(data, cli, r);
    }

    /** `kv_lib_cli_delete`, of the node at position `k` of chain `h`. */
    method Delete(cli: CliNode, ghost h: nat, ghost k: nat)
      requires Valid() && h < HASH_SIZE && k < |chains[h]| && cli == chains[h][k]
      modifies this, header, repr
      ensures Valid() && repr == old(repr) - {cli} &&
              chains == old(chains)[h := old(chains[h][..k] + chains[h][k + 1..])]
      ensures DataOf(repr) == old(DataOf(repr)) - {cli}
      ensures cli.next == old(cli.next)
    {
      hide Hash, Shaped, AllLinked, NoTwice, ByMac, LinksDeleted;
      DeleteReady(chains, repr, header[..], h, k);
      Unlink(header, Hash(cli.hwaddr), cli, repr);
      ghost var links := LinksOf(repr);
      chains := chains[h := chains[h][..k] + chains[h][k + 1..]];
      repr := repr - {cli};
      LinkedSmaller(header[..], chains, links, repr, LinksOf(repr));
    }
  }

  lemma ByMacUpdate(data: map<CliNode, Rec>, cli: CliNode, r: Rec)
    requires Distinct(data.Keys) && cli in data
    ensures ByMac(data[cli := r]) == ByMac(data)[cli.hwaddr := r]
  {
    assert data[cli := r].Keys == data.Keys;
  }

  /** The stores of `kv_lib_cli_delete`. */
  method Unlink(header: array<CliNode?>, h: nat, cli: CliNode, ghost repr: set<CliNode>)
    requires h < header.Length && cli in repr
    requires (cli.next == null || cli.next in repr) && (cli.prev == null || cli.prev in repr) && cli.next != cli &&
             cli.prev != cli
    modifies header, repr
    ensures header[..] == if old(header[h]) == cli then old(header[..])[h := old(cli.next)] else old(header[..])
    ensures LinksOf(repr) == LinksDeleted(old(LinksOf(repr)), cli)
    ensures DataOf(repr) == old(DataOf(repr)) && cli.next == old(cli.next)
  {
    if header[h] == cli {
      header[h] := cli.next;
    }
    if cli.next != null {
      cli.next.prev := cli.prev;
    }
    if cli.prev != null {
      cli.prev.next := cli.next;
    }
  }

  /** What `kv_lib_cli_delete` needs and will leave. */
  lemma DeleteReady(chains: seq<seq<CliNode>>, repr: set<CliNode>, heads: seq<CliNode?>, h: nat, k: nat)
    requires Shaped(chains, repr) && AllLinked(heads, chains, LinksOf(repr)) && h < HASH_SIZE && k < |chains[h]|
    ensures var cli, ch := chains[h][k], chains[h];
            |heads| == HASH_SIZE == |chains| && cli in repr && Hash(cli.hwaddr) == h &&
            cli.next == NodeAt(ch, k + 1) && (cli.next == null || cli.next in repr) &&
            (cli.prev == null || cli.prev in repr) &&
            cli.next != cli && cli.prev != cli &&
            Shaped(chains[h := ch[..k] + ch[k + 1..]], repr - {cli}) && cli in LinksOf(repr) &&
            AllLinked(if heads[h] == cli then
              heads[h := cli.next] else heads, chains[h := ch[..k] + ch[k + 1..]], LinksDeleted(LinksOf(repr), cli))
  {
    hide Hash, Shaped, AllLinked, LinksDeleted;
    ShapedParts(chains, repr, h);
    NextLinked(heads, chains, repr, h, k);
    FirstLinked(heads, chains, LinksOf(repr), h);
    ShapedDelete(chains, repr, h, k);
    DeleteLinked(heads, chains, LinksOf(repr), repr, h, k);
  }

  /** Links of nodes that are in no chain do not matter. */
  lemma LinkedSmaller(heads: seq<CliNode?>, chains: seq<seq<CliNode>>, links: map<CliNode, Links>,
                      repr: set<CliNode>, links': map<CliNode, Links>)
    requires Shaped(chains, repr) && AllLinked(heads, chains, links) && forall n ::
               n in repr && n in links ==> n in links' && links'[n] == links[n]
    ensures AllLinked(heads, chains, links')
  {
    hide Hash, Shaped, NoTwice;
    forall h | 0 <= h < HASH_SIZE ensures Linked(heads[h], chains[h], links') {
      ShapedParts(chains, repr, h);
    }
  }

  lemma NextLinked(heads: seq<CliNode?>, chains: seq<seq<CliNode>>, repr: set<CliNode>, h: nat, i: nat)
    requires AllLinked(heads, chains, LinksOf(repr)) && h < HASH_SIZE && i < |chains[h]|
    ensures chains[h][i].next == NodeAt(chains[h], i + 1) && chains[h][i].prev == NodeAt(chains[h], i - 1)
  {
    LinkAt(heads[h], chains[h], LinksOf(repr), i);
  }

  /** The stores of `kv_lib_cli_add`. */
  method PutFirst(header: array<CliNode?>, h: nat, cli: CliNode, ghost repr: set<CliNode>)
    requires h < header.Length && (header[h] == null || header[h] in repr) && cli !in repr
    modifies header, repr, cli
    ensures header[..] == old(header[..])[h := cli]
    ensures LinksOf(repr + {cli}) == LinksAdded(old(LinksOf(repr)), old(header[h]), cli)
    ensures DataOf(repr + {cli}) == old(DataOf(repr))[cli := old(cli.Data())]
  {
    cli.next := header[h];
    cli.prev := null;
    if header[h] != null {
      header[h].prev := cli;
    }
    header[h] := cli;
  }

  /** What `kv_lib_cli_add` needs and will leave. */
  lemma AddReady(chains: seq<seq<CliNode>>, repr: set<CliNode>, heads: seq<CliNode?>, cli: CliNode)
    requires Shaped(chains, repr) && AllLinked(heads, chains, LinksOf(repr)) && cli.hwaddr !in ByMac(DataOf(repr))
    ensures var h := Hash(cli.hwaddr);
            |heads| == HASH_SIZE == |chains| && cli !in repr && (heads[h] == null || heads[h] in repr) &&
            (forall n :: n in DataOf(repr) ==> n.hwaddr != cli.hwaddr) && Distinct(DataOf(repr).Keys) &&
            Shaped(chains[h := [cli] + chains[h]], repr + {cli}) &&
            AllLinked(heads[h := cli], chains[h := [cli] + chains[h]], LinksAdded(LinksOf(repr), heads[h], cli))
  {
    hide Hash, Shaped, AllLinked, NoTwice, ByMac, LinksAdded;
    var h := Hash(cli.hwaddr);
    ShapedDistinct(chains, repr);
    ByMacKeys(DataOf(repr));
    assert cli !in repr;
    ShapedParts(chains, repr, h);
    FirstLinked(heads, chains, LinksOf(repr), h);
    ShapedAdd(chains, repr, cli);
    AddLinked(heads, chains, LinksOf(repr), repr, cli);
  }

  lemma FirstLinked(heads: seq<CliNode?>, chains: seq<seq<CliNode>>, links: map<CliNode, Links>, h: nat)
    requires AllLinked(heads, chains, links) && h < HASH_SIZE
    ensures |heads| == |chains| == HASH_SIZE && heads[h] == NodeAt(chains[h], 0)
  {
  }

  lemma ByMacKeys(data: map<CliNode, Rec>)
    requires Distinct(data.Keys)
    ensures forall n :: n in data ==> n.hwaddr in ByMac(data) && ByMac(data)[n.hwaddr] == data[n]
    ensures forall m :: m in ByMac(data) ==> exists n :: n in data && n.hwaddr == m
  {
  }

  lemma ByMacAdd(data: map<CliNode, Rec>, cli: CliNode, r: Rec)
    requires Distinct(data.Keys) && forall n :: n in data ==> n.hwaddr != cli.hwaddr
    ensures Distinct(data[cli := r].Keys) && ByMac(data[cli := r]) == ByMac(data)[cli.hwaddr := r]
  {
  }
}
