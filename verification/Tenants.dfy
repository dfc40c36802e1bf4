/** Tenants with materialised paths, the prefix query over them, and the tree built from its result. */
module Tenants {
  import opened Decimals
  import opened Optional

  datatype Tenant = Tenant(id: nat, name: string, parent: Option<nat>, path: string, level: int)

  // ---------- paths ----------

  /** Everything after the leading slash: one segment per tenant from the root down. */
  function Segments(chain: seq<nat>): string {
    if chain == [] then "" else Decimal(chain[0]) + "/" + Segments(chain[1..])
  }

  function Render(chain: seq<nat>): string {
    "/" + Segments(chain)
  }

  lemma {:induction false} SegmentsSnoc(chain: seq<nat>, id: nat)
    ensures Segments(chain + [id]) == Segments(chain) + (Decimal(id) + "/")
  {
    if chain == [] {
      assert ([] + [id])[1..] == [];
    } else {
      assert (chain + [id])[1..] == chain[1..] + [id];
      SegmentsSnoc(chain[1..], id);
    }
  }

  /** Rendered paths are prefixes of each other exactly when the chains are. */
  lemma {:induction false} PrefixOfChains(a: seq<nat>, b: seq<nat>)
    ensures Segments(a) <= Segments(b) <==> a <= b
  {
    if a != [] {
      var sa, sb := Segments(a), Segments(b);
      if b == [] {
        assert |sa| > 0;
      } else {
        var da, db := Decimal(a[0]), Decimal(b[0]);
        PrefixOfChains(a[1..], b[1..]);
        assert sa[|da|] == '/' && sb[|db|] == '/';
        if sa <= sb {
          FirstSlash(da, Segments(a[1..]), db, Segments(b[1..]));
          DecimalInjective(a[0], b[0]);
          assert a[1..] <= b[1..] && a == [a[0]] + a[1..] && b == [b[0]] + b[1..];
        }
        if a <= b {
          assert a[0] == b[0] && a[1..] <= b[1..];
        }
      }
    }
  }

  lemma FirstSlash(da: string, ra: string, db: string, rb: string)
    requires da + "/" + ra <= db + "/" + rb
    requires (forall i :: 0 <= i < |da| ==> da[i] != '/') && forall i :: 0 <= i < |db| ==> db[i] != '/'
    ensures da == db && ra <= rb
  {
    var sa, sb := da + "/" + ra, db + "/" + rb;
    assert sa[|da|] == '/' && sb[|db|] == '/' && sb[|da|] == sa[|da|];
    assert forall i :: 0 <= i < |da| ==> sb[i] == sa[i] == da[i];
    assert |da| == |db|;
    assert da == sb[..|da|] == db;
    assert ra == sa[|da| + 1..] && rb == sb[|da| + 1..];
  }

  // ---------- the table ----------

  /** Every row was given its path and level from its parent's row. */
  ghost predicate Placed(rows: map<nat, Tenant>) {
    forall id :: id in rows ==> PlacedAt(rows, rows[id]) && rows[id].id == id
  }

  ghost predicate PlacedAt(rows: map<nat, Tenant>, t: Tenant) {
    match t.parent
    case None => t.path == "/" + (Decimal(t.id) + "/") && t.level == 1
    case Some(p) =>
      p in rows && t.path == rows[p].path + (Decimal(t.id) + "/") && t.level == rows[p].level + 1 && t.level > 1
  }

  /** The tenants from the root down to id. */
  ghost function Chain(rows: map<nat, Tenant>, id: nat): seq<nat>
    requires Placed(rows) && id in rows
    decreases rows[id].level
  {
    match rows[id].parent
    case None => [id]
    case Some(p) => assert PlacedAt(rows, rows[id]); Chain(rows, p) + [id]
  }

  ghost predicate IsAncestorOrSelf(rows: map<nat, Tenant>, a: nat, id: nat)
    requires Placed(rows) && id in rows
    decreases rows[id].level
  {
    a == id ||
    (rows[id].parent.Some? && (assert PlacedAt(rows, rows[id]); IsAncestorOrSelf(rows, a, rows[id].parent.value)))
  }

  lemma {:induction false} PathIsRendered(rows: map<nat, Tenant>, id: nat)
    requires Placed(rows) && id in rows
    ensures rows[id].path == Render(Chain(rows, id))
    decreases rows[id].level
  {
    assert PlacedAt(rows, rows[id]);
    match rows[id].parent {
      case None =>
        SegmentsSnoc([], id);
        assert [] + [id] == [id];
      case Some(p) =>
        PathIsRendered(rows, p);
        SegmentsSnoc(Chain(rows, p), id);
    }
  }

  /** a's chain is a prefix of id's exactly when a is on it. */
  lemma {:induction false} ChainPrefix(rows: map<nat, Tenant>, a: nat, id: nat)
    requires Placed(rows) && a in rows && id in rows
    ensures Chain(rows, a) <= Chain(rows, id) <==> IsAncestorOrSelf(rows, a, id)
    decreases rows[id].level
  {
    var ca, c := Chain(rows, a), Chain(rows, id);
    assert PlacedAt(rows, rows[id]) && PlacedAt(rows, rows[a]);
    assert ca[|ca| - 1] == a && c[|c| - 1] == id;
    match rows[id].parent {
      case None =>
        assert ca <= c ==> ca == c;
      case Some(p) =>
        ChainPrefix(rows, a, p);
        var cp := Chain(rows, p);
        assert c == cp + [id] && c[..|cp|] == cp;
        if ca <= c && a != id {
          assert |ca| <= |cp|;
          assert ca <= cp;
        }
    }
  }

  /** One tenant's path is a string prefix of another's exactly when it is that tenant or an ancestor. */
  lemma PrefixTheorem(rows: map<nat, Tenant>, a: nat, id: nat)
    requires Placed(rows) && a in rows && id in rows
    ensures rows[a].path <= rows[id].path <==> IsAncestorOrSelf(rows, a, id)
  {
    PathIsRendered(rows, a);
    PathIsRendered(rows, id);
    ChainPrefix(rows, a, id);
    var ca, c := Chain(rows, a), Chain(rows, id);
    PrefixOfChains(ca, c);
    assert Render(ca)[1..] == Segments(ca) && Render(c)[1..] == Segments(c);
    if Render(ca) <= Render(c) {
      assert Render(ca)[1..] <= Render(c)[1..];
    }
  }

  function Located(rows: map<nat, Tenant>, t: Tenant): Tenant
    requires t.parent.Some? ==> t.parent.value in rows
  {
    match t.parent
    case None => t.(path := "/" + (Decimal(t.id) + "/"), level := 1)
    case Some(p) => t.(path := rows[p].path + (Decimal(t.id) + "/"), level := rows[p].level + 1)
  }

  lemma SaveKeepsPlaced(rows: map<nat, Tenant>, t: Tenant)
    requires Placed(rows) && (t.parent.Some? ==> t.parent.value in rows)
    requires t.id in rows ==> rows[t.id].parent == t.parent
    ensures Placed(rows[t.id := Located(rows, t)])
  {
    var t' := Located(rows, t);
    var rows' := rows[t.id := t'];
    if t.parent.Some? {
      assert PlacedAt(rows, rows[t.parent.value]);
      assert t.id in rows ==> PlacedAt(rows, rows[t.id]);
    }
    if t.id in rows {
      assert PlacedAt(rows, rows[t.id]);
    }
    forall id | id in rows' ensures PlacedAt(rows', rows'[id]) && rows'[id].id == id {
      if id != t.id { assert PlacedAt(rows, rows[id]); }
    }
  }

  class TenantTable {
    var rows: map<nat, Tenant>

    constructor ()
      ensures rows == map[]
    {
      rows := map[];
    }

    /** Sets path and level from the parent's row and saves. A missing parent is an error, and then
        nothing is saved. A table of placed rows stays one, as long as no saved tenant gets another parent. */
    method UpdateTenantPath(tenant: Tenant) returns (err: bool)
      modifies this
      ensures err <==> tenant.parent.Some? && tenant.parent.value !in old(rows)
      ensures err ==> rows == old(rows)
      ensures !err ==> rows == old(rows)[tenant.id := Located(old(rows), tenant)]
      ensures !err ==> var t := rows[tenant.id]; t == tenant.(path := t.path, level := t.level)
      ensures old(Placed(rows)) && (tenant.id in old(rows) ==> old(rows)[tenant.id].parent == tenant.parent) ==>
                Placed(rows)
    {
      if Placed(rows) && (tenant.parent.Some? ==> tenant.parent.value in rows)
         && (tenant.id in rows ==> rows[tenant.id].parent == tenant.parent) {
        SaveKeepsPlaced(rows, tenant);
      }
      var t := tenant;
      if t.parent == None {
        t := t.(path := "/" + (Decimal(t.id) + "/"), level := 1);
      } else {
        if t.parent.value !in rows {
          return true;
        }
        var parent := rows[t.parent.value];
        t := t.(path := parent.path + (Decimal(t.id) + "/"), level := parent.level + 1);
      }
      rows := rows[t.id := t];
      return false;
    }
  }

  // ---------- the tree ----------

  datatype TreeNode = TreeNode(id: nat, name: string, level: int, children: seq<TreeNode>)

  /** The tenants of a list whose parent is the given one, in list order. */
  function Children(tenants: seq<Tenant>, parent: Option<nat>): seq<Tenant> {
    if tenants == [] then [] else
      var k := |tenants| - 1;
      var rest := Children(tenants[..k], parent);
      if tenants[k].parent == parent then rest + [tenants[k]] else rest
  }

  /** One tree node per tenant of `kids`, in order, over the forest of its own children. */
  ghost predicate IsForest(tenants: seq<Tenant>, kids: seq<Tenant>, tree: seq<TreeNode>)
    decreases tree
  {
    if kids == [] || tree == [] then kids == [] && tree == [] else
      && tree[0].id == kids[0].id && tree[0].name == kids[0].name && tree[0].level == kids[0].level
      && IsForest(tenants, Children(tenants, Some(kids[0].id)), tree[0].children)
      && IsForest(tenants, kids[1..], tree[1..])
  }

  /** All IDs of a forest, node before children. */
  function Flatten(tree: seq<TreeNode>): seq<nat> {
    if tree == [] then [] else [tree[0].id] + Flatten(tree[0].children) + Flatten(tree[1..])
  }

  /** Rows of a placed table, each at most once. */
  ghost predicate FromTable(rows: map<nat, Tenant>, tenants: seq<Tenant>) {
    && Placed(rows) && (forall t :: t in tenants ==> t.id in rows && rows[t.id] == t)
    && forall i, j :: 0 <= i < j < |tenants| ==> tenants[i].id != tenants[j].id
  }

  lemma {:induction false} ForestSnoc(tenants: seq<Tenant>, kids: seq<Tenant>, tree: seq<TreeNode>, kid: Tenant,
                                      node: TreeNode)
    requires IsForest(tenants, kids, tree)
    requires node.id == kid.id && node.name == kid.name && node.level == kid.level
    requires IsForest(tenants, Children(tenants, Some(kid.id)), node.children)
    ensures IsForest(tenants, kids + [kid], tree + [node])
    decreases |tree|
  {
    if tree == [] {
      assert ([] + [node])[1..] == [] && ([] + [kid])[1..] == [];
    } else {
      assert (tree + [node])[1..] == tree[1..] + [node] && (kids + [kid])[1..] == kids[1..] + [kid];
      ForestSnoc(tenants, kids[1..], tree[1..], kid, node);
    }
  }

  /** Levels of the tenants, at most `deepest`, and higher than those of their parents. */
  ghost predicate Ranked(tenants: seq<Tenant>, levels: map<nat, int>, deepest: int) {
    forall t :: t in tenants ==>
      t.id in levels && 0 < levels[t.id] <= deepest &&
      (t.parent.Some? && t.parent.value in levels ==> levels[t.parent.value] < levels[t.id])
  }

  /** buildTree. The recursion ends because levels grow from parent to child. */
  method BuildTree(tenants: seq<Tenant>, parent: Option<nat>, ghost levels: map<nat, int>, ghost deepest: int)
    returns (tree: seq<TreeNode>)
    requires Ranked(tenants, levels, deepest) && (parent.Some? ==> parent.value in levels)
    ensures IsForest(tenants, Children(tenants, parent), tree)
    decreases if parent.None? then deepest else deepest - levels[parent.value], parent.None?
  {
    tree := [];
    for i := 0 to |tenants|
      invariant IsForest(tenants, Children(tenants[..i], parent), tree)
    {
      var tenant := tenants[i];
      assert tenant in tenants;
      ChildrenSnoc(tenants, i, parent);
      if tenant.parent == parent {
        var children := BuildTree(tenants, Some(tenant.id), levels, deepest);
        var node := TreeNode(tenant.id, tenant.name, tenant.level, children);
        ForestSnoc(tenants, Children(tenants[..i], parent), tree, tenant, node);
        tree := tree + [node];
      }
    }
    assert tenants[..|tenants|] == tenants;
  }

  lemma ChildrenSnoc(tenants: seq<Tenant>, i: nat, parent: Option<nat>)
    requires i < |tenants|
    ensures Children(tenants[..i + 1], parent) ==
            if tenants[i].parent == parent then Children(tenants[..i], parent) + [tenants[i]]
            else Children(tenants[..i], parent)
  {
    assert tenants[..i + 1][..i] == tenants[..i];
  }

  // ---------- what the tree contains ----------

  /** The tenant on id's chain whose parent is the given one, if there is such a tenant. */
  ghost function Below(rows: map<nat, Tenant>, parent: Option<nat>, id: nat): Option<nat>
    requires Placed(rows) && id in rows
    decreases rows[id].level
  {
    if rows[id].parent == parent then Some(id)
    else match rows[id].parent
      case None => None
      case Some(p) => assert PlacedAt(rows, rows[id]); Below(rows, parent, p)
  }

  lemma {:induction false} BelowIsAncestor(rows: map<nat, Tenant>, a: nat, id: nat)
    requires Placed(rows) && a in rows && id in rows
    ensures a == id || Below(rows, Some(a), id).Some? <==> IsAncestorOrSelf(rows, a, id)
    ensures Below(rows, Some(a), id).Some? ==> rows[a].level < rows[id].level
    decreases rows[id].level
  {
    assert PlacedAt(rows, rows[id]) && PlacedAt(rows, rows[a]);
    if p: nat :| rows[id].parent == Some(p) {
      BelowIsAncestor(rows, a, p);
    }
  }

  /** Being strictly below a parent is being, or being below, exactly one of its children. */
  lemma {:induction false} BelowSplit(rows: map<nat, Tenant>, parent: Option<nat>, id: nat, kid: nat)
    requires Placed(rows) && id in rows && kid in rows && rows[kid].parent == parent
    ensures Below(rows, parent, id) == Some(kid) <==> IsAncestorOrSelf(rows, kid, id)
    decreases rows[id].level
  {
    assert PlacedAt(rows, rows[id]) && PlacedAt(rows, rows[kid]);
    if rows[id].parent == parent {
      BelowIsAncestor(rows, kid, id);
    } else if p: nat :| rows[id].parent == Some(p) {
      BelowSplit(rows, parent, p, kid);
    }
  }

  lemma {:induction false} BelowMeans(rows: map<nat, Tenant>, parent: Option<nat>, id: nat)
    requires Placed(rows) && id in rows && Below(rows, parent, id).Some?
    ensures var kid := Below(rows, parent, id).value; kid in rows && rows[kid].parent == parent
    decreases rows[id].level
  {
    assert PlacedAt(rows, rows[id]);
    if rows[id].parent != parent {
      BelowMeans(rows, parent, rows[id].parent.value);
    }
  }

  /** How many of these tenants are id or above it. */
  ghost function Hits(rows: map<nat, Tenant>, kids: seq<Tenant>, id: nat): nat
    requires Placed(rows) && id in rows
  {
    if kids == [] then 0 else
      (if IsAncestorOrSelf(rows, kids[0].id, id) then 1 else 0) + Hits(rows, kids[1..], id)
  }

  lemma {:induction false} HitsSnoc(rows: map<nat, Tenant>, kids: seq<Tenant>, kid: Tenant, id: nat)
    requires Placed(rows) && id in rows
    ensures Hits(rows, kids + [kid], id) ==
            Hits(rows, kids, id) + if IsAncestorOrSelf(rows, kid.id, id) then 1 else 0
  {
    if kids == [] {
      assert ([] + [kid])[1..] == [];
    } else {
      assert (kids + [kid])[1..] == kids[1..] + [kid];
      HitsSnoc(rows, kids[1..], kid, id);
    }
  }

  ghost predicate Lists(tenants: seq<Tenant>, id: nat) {
    exists t :: t in tenants && t.id == id
  }

  lemma ListsSnoc(rows: map<nat, Tenant>, tenants: seq<Tenant>)
    requires FromTable(rows, tenants) && tenants != []
    ensures var k := |tenants| - 1;
            && FromTable(rows, tenants[..k]) && tenants[k] in tenants && !Lists(tenants[..k], tenants[k].id)
            && forall v :: Lists(tenants, v) <==> Lists(tenants[..k], v) || v == tenants[k].id
  {
    var k := |tenants| - 1;
    assert tenants == tenants[..k] + [tenants[k]];
    assert forall u :: u in tenants <==> u in tenants[..k] || u == tenants[k];
  }

  /** Among the children of one parent in a list, exactly the one on id's chain is hit. */
  lemma {:induction false} ChildrenHits(rows: map<nat, Tenant>, tenants: seq<Tenant>, parent: Option<nat>, id: nat)
    requires FromTable(rows, tenants) && id in rows
    ensures Hits(rows, Children(tenants, parent), id) ==
            if Below(rows, parent, id).Some? && Lists(tenants, Below(rows, parent, id).value) then 1 else 0
  {
    if tenants != [] {
      var k := |tenants| - 1;
      var t := tenants[k];
      ChildrenHits(rows, tenants[..k], parent, id);
      ListsSnoc(rows, tenants);
      if t.parent == parent {
        HitsSnoc(rows, Children(tenants[..k], parent), t, id);
        BelowSplit(rows, parent, id, t.id);
      } else if Below(rows, parent, id).Some? {
        BelowMeans(rows, parent, id);
      }
    }
  }

  /** A list that holds, with a tenant, all its children. */
  ghost predicate DownClosed(rows: map<nat, Tenant>, tenants: seq<Tenant>) {
    forall id :: id in rows && rows[id].parent.Some? && Lists(tenants, rows[id].parent.value) ==> Lists(tenants, id)
  }

  /** Every id occurs in a forest as often as the forest's top tenants are id or above it. */
  lemma {:induction false} ForestCount(rows: map<nat, Tenant>, tenants: seq<Tenant>, kids: seq<Tenant>,
                                       tree: seq<TreeNode>, id: nat)
    requires FromTable(rows, tenants) && DownClosed(rows, tenants) && id in rows
    requires IsForest(tenants, kids, tree) && forall t :: t in kids ==> t in tenants
    ensures multiset(Flatten(tree))[id] == Hits(rows, kids, id)
    decreases tree
  {
    if tree != [] {
      var kid := kids[0];
      assert kid in tenants;
      ChildrenInside(tenants, Some(kid.id));
      ForestCount(rows, tenants, Children(tenants, Some(kid.id)), tree[0].children, id);
      ForestCount(rows, tenants, kids[1..], tree[1..], id);
      ChildrenHits(rows, tenants, Some(kid.id), id);
      BelowIsAncestor(rows, kid.id, id);
      if Below(rows, Some(kid.id), id).Some? {
        BelowMeans(rows, Some(kid.id), id);
        assert Lists(tenants, kid.id);
      }
      assert multiset(Flatten(tree)) ==
             multiset([tree[0].id]) + multiset(Flatten(tree[0].children)) + multiset(Flatten(tree[1..]));
    }
  }

  lemma {:induction false} ChildrenInside(tenants: seq<Tenant>, parent: Option<nat>)
    ensures forall t :: t in Children(tenants, parent) <==> t in tenants && t.parent == parent
  {
    if tenants != [] {
      var k := |tenants| - 1;
      ChildrenInside(tenants[..k], parent);
      assert tenants == tenants[..k] + [tenants[k]];
    }
  }

  /** Every node stands for the row with its ID, under the parent above it. */
  ghost predicate Hangs(rows: map<nat, Tenant>, tree: seq<TreeNode>, parent: Option<nat>)
    decreases tree
  {
    tree == [] ||
    (var node := tree[0];
     && node.id in rows && rows[node.id].parent == parent
     && node.name == rows[node.id].name && node.level == rows[node.id].level
     && Hangs(rows, node.children, Some(node.id)) && Hangs(rows, tree[1..], parent))
  }

  lemma {:induction false} ForestHangs(rows: map<nat, Tenant>, tenants: seq<Tenant>, kids: seq<Tenant>,
                                       parent: Option<nat>, tree: seq<TreeNode>)
    requires FromTable(rows, tenants) && IsForest(tenants, kids, tree)
    requires forall t :: t in kids ==> t in tenants && t.parent == parent
    ensures Hangs(rows, tree, parent)
    decreases tree
  {
    if tree != [] {
      var id := kids[0].id;
      assert kids[0] in tenants;
      ChildrenInside(tenants, Some(id));
      ForestHangs(rows, tenants, Children(tenants, Some(id)), Some(id), tree[0].children);
      ForestHangs(rows, tenants, kids[1..], parent, tree[1..]);
    }
  }

  // ---------- GetTenantTree ----------

  /** The order in which both queries list their rows. */
  ghost predicate ByLevelAndId(found: seq<Tenant>) {
    forall i, j :: 0 <= i < j < |found| ==>
      found[i].level < found[j].level || (found[i].level == found[j].level && found[i].id < found[j].id)
  }

  ghost predicate AscendingIds(kids: seq<Tenant>) {
    forall i, j :: 0 <= i < j < |kids| ==> kids[i].id < kids[j].id
  }

  ghost predicate IdsBelow(kids: seq<Tenant>, id: nat) {
    forall i :: 0 <= i < |kids| ==> kids[i].id < id
  }

  /** At every level of a forest, siblings ascend by ID. */
  ghost predicate SiblingsAscend(tree: seq<TreeNode>) {
    tree != [] ==>
      && SiblingsAscend(tree[0].children) && SiblingsAscend(tree[1..])
      && (|tree| > 1 ==> tree[0].id < tree[1].id)
  }

  /** Rows under one parent share a level, so the query lists them by ID. */
  lemma SiblingsById(rows: map<nat, Tenant>, tenants: seq<Tenant>, i: nat, j: nat)
    requires FromTable(rows, tenants) && ByLevelAndId(tenants)
    requires i < j < |tenants| && tenants[i].parent == tenants[j].parent
    ensures tenants[i].id < tenants[j].id
  {
    assert tenants[i] in tenants && tenants[j] in tenants;
    assert PlacedAt(rows, tenants[i]) && PlacedAt(rows, tenants[j]);
  }

  lemma {:induction false} ChildrenAscend(rows: map<nat, Tenant>, tenants: seq<Tenant>, parent: Option<nat>, n: nat)
    requires FromTable(rows, tenants) && ByLevelAndId(tenants) && n <= |tenants|
    ensures AscendingIds(Children(tenants[..n], parent))
    ensures forall m :: n <= m < |tenants| && tenants[m].parent == parent ==>
              IdsBelow(Children(tenants[..n], parent), tenants[m].id)
  {
    if n > 0 {
      ChildrenAscend(rows, tenants, parent, n - 1);
      assert tenants[..n][..n - 1] == tenants[..n - 1];
      var kids := Children(tenants[..n], parent);
      forall m | n <= m < |tenants| && tenants[m].parent == parent ensures IdsBelow(kids, tenants[m].id) {
        assert IdsBelow(Children(tenants[..n - 1], parent), tenants[m].id);
        if tenants[n - 1].parent == parent {
          SiblingsById(rows, tenants, n - 1, m);
        }
      }
    }
  }

  lemma AllChildrenAscend(rows: map<nat, Tenant>, tenants: seq<Tenant>, parent: Option<nat>)
    requires FromTable(rows, tenants) && ByLevelAndId(tenants)
    ensures AscendingIds(Children(tenants, parent))
  {
    ChildrenAscend(rows, tenants, parent, |tenants|);
    assert tenants[..|tenants|] == tenants;
  }

  lemma {:induction false} ForestAscends(rows: map<nat, Tenant>, tenants: seq<Tenant>, kids: seq<Tenant>,
                                         tree: seq<TreeNode>)
    requires FromTable(rows, tenants) && ByLevelAndId(tenants) && AscendingIds(kids)
    requires IsForest(tenants, kids, tree)
    ensures SiblingsAscend(tree)
    decreases tree
  {
    if tree != [] {
      AllChildrenAscend(rows, tenants, Some(kids[0].id));
      ForestAscends(rows, tenants, Children(tenants, Some(kids[0].id)), tree[0].children);
      ForestAscends(rows, tenants, kids[1..], tree[1..]);
    }
  }

  /** The answer of the prefix query for a root's path: the rows whose path starts with it, each once. */
  ghost predicate PrefixQuery(rows: map<nat, Tenant>, prefix: string, found: seq<Tenant>) {
    && FromTable(rows, found)
    && forall id :: id in rows ==> (Lists(found, id) <==> prefix <= rows[id].path)
  }

  ghost predicate FullQuery(rows: map<nat, Tenant>, found: seq<Tenant>) {
    FromTable(rows, found) && forall id :: id in rows ==> Lists(found, id)
  }

  function Deepest(tenants: seq<Tenant>): (d: int)
    ensures forall t :: t in tenants ==> t.level <= d
  {
    if tenants == [] then 0 else
      var d := Deepest(tenants[1..]);
      if tenants[0].level > d then tenants[0].level else d
  }

  ghost function Levels(rows: map<nat, Tenant>): map<nat, int> {
    map id | id in rows :: rows[id].level
  }

  lemma TableIsRanked(rows: map<nat, Tenant>, tenants: seq<Tenant>)
    requires FromTable(rows, tenants)
    ensures Ranked(tenants, Levels(rows), Deepest(tenants))
  {
    forall t | t in tenants
      ensures t.id in rows && 0 < rows[t.id].level <= Deepest(tenants)
      ensures t.parent.Some? ==> t.parent.value in rows && rows[t.parent.value].level < rows[t.id].level
    {
      assert PlacedAt(rows, rows[t.id]);
    }
  }

  /** The prefix query returns a root and what is below it: at the root's own parent only the root
      is found, and with every tenant all its children are. */
  lemma QueryIsSubtree(rows: map<nat, Tenant>, rootId: nat, found: seq<Tenant>, id: nat)
    requires Placed(rows) && rootId in rows && id in rows && PrefixQuery(rows, rows[rootId].path, found)
    ensures DownClosed(rows, found)
    ensures Hits(rows, Children(found, rows[rootId].parent), id) == if IsAncestorOrSelf(rows, rootId, id) then 1 else 0
  {
    var parent := rows[rootId].parent;
    forall x | x in rows && rows[x].parent.Some? && Lists(found, rows[x].parent.value) ensures Lists(found, x) {
      assert PlacedAt(rows, rows[x]);
      PrefixTheorem(rows, rootId, x);
      PrefixTheorem(rows, rootId, rows[x].parent.value);
    }
    PrefixTheorem(rows, rootId, rootId);
    ChildrenHits(rows, found, parent, id);
    BelowSplit(rows, parent, id, rootId);
    if Below(rows, parent, id).Some? {
      var kid := Below(rows, parent, id).value;
      BelowMeans(rows, parent, id);
      PrefixTheorem(rows, rootId, kid);
      BelowIsAncestor(rows, rootId, kid);
      assert PlacedAt(rows, rows[kid]) && PlacedAt(rows, rows[rootId]);
    }
  }

  lemma {:induction false} RootsAreFound(rows: map<nat, Tenant>, id: nat)
    requires Placed(rows) && id in rows
    ensures Below(rows, None, id).Some?
    decreases rows[id].level
  {
    assert PlacedAt(rows, rows[id]);
    if rows[id].parent.Some? {
      RootsAreFound(rows, rows[id].parent.value);
    }
  }

  lemma {:induction false} FlattenInside(tenants: seq<Tenant>, kids: seq<Tenant>, tree: seq<TreeNode>)
    requires IsForest(tenants, kids, tree) && forall t :: t in kids ==> t in tenants
    ensures forall id :: id in Flatten(tree) ==> Lists(tenants, id)
    decreases tree
  {
    if tree != [] {
      assert kids[0] in tenants;
      ChildrenInside(tenants, Some(kids[0].id));
      FlattenInside(tenants, Children(tenants, Some(kids[0].id)), tree[0].children);
      FlattenInside(tenants, kids[1..], tree[1..]);
    }
  }

  lemma OnceEach(s: seq<nat>, ids: set<nat>)
    requires forall id :: id in s ==> id in ids
    requires forall id :: id in ids ==> multiset(s)[id] == 1
    ensures multiset(s) == multiset(ids)
  {
    forall id ensures multiset(s)[id] == multiset(ids)[id] {
      if id !in ids { assert id !in s; }
    }
  }

  lemma SubtreeCounts(rows: map<nat, Tenant>, rootId: nat, found: seq<Tenant>, tree: seq<TreeNode>, id: nat)
    requires Placed(rows) && rootId in rows && PrefixQuery(rows, rows[rootId].path, found)
    requires IsForest(found, Children(found, rows[rootId].parent), tree) && id in rows
    ensures multiset(Flatten(tree))[id] == if IsAncestorOrSelf(rows, rootId, id) then 1 else 0
  {
    ChildrenInside(found, rows[rootId].parent);
    QueryIsSubtree(rows, rootId, found, id);
    ForestCount(rows, found, Children(found, rows[rootId].parent), tree, id);
  }

  lemma ForestInTable(rows: map<nat, Tenant>, found: seq<Tenant>, parent: Option<nat>, tree: seq<TreeNode>)
    requires FromTable(rows, found) && IsForest(found, Children(found, parent), tree)
    ensures forall id :: id in Flatten(tree) ==> id in rows
  {
    ChildrenInside(found, parent);
    FlattenInside(found, Children(found, parent), tree);
  }

  lemma SubtreeOnce(rows: map<nat, Tenant>, rootId: nat, found: seq<Tenant>, tree: seq<TreeNode>)
    requires Placed(rows) && rootId in rows && PrefixQuery(rows, rows[rootId].path, found)
    requires IsForest(found, Children(found, rows[rootId].parent), tree)
    ensures multiset(Flatten(tree)) == multiset(set id | id in rows && IsAncestorOrSelf(rows, rootId, id))
  {
    var ids := set id | id in rows && IsAncestorOrSelf(rows, rootId, id);
    ForestInTable(rows, found, rows[rootId].parent, tree);
    forall id | id in ids ensures multiset(Flatten(tree))[id] == 1 {
      SubtreeCounts(rows, rootId, found, tree, id);
    }
    forall id | id in Flatten(tree) ensures id in ids {
      assert id in multiset(Flatten(tree));
      SubtreeCounts(rows, rootId, found, tree, id);
    }
    OnceEach(Flatten(tree), ids);
  }

  lemma TableOnce(rows: map<nat, Tenant>, found: seq<Tenant>, tree: seq<TreeNode>)
    requires Placed(rows) && FullQuery(rows, found) && IsForest(found, Children(found, None), tree)
    ensures multiset(Flatten(tree)) == multiset(rows.Keys)
  {
    ForestInTable(rows, found, None, tree);
    forall id | id in rows ensures multiset(Flatten(tree))[id] == 1 {
      RootsAreFound(rows, id);
      BelowMeans(rows, None, id);
      ChildrenInside(found, None);
      ChildrenHits(rows, found, None, id);
      ForestCount(rows, found, Children(found, None), tree, id);
    }
    OnceEach(Flatten(tree), rows.Keys);
  }

  /** GetTenantTree for a root: the root and each of its descendants occur in the tree exactly once,
      and nothing else does; the query's order makes siblings ascend by ID. An unknown root is an error. */
  method GetTenantTree(rows: map<nat, Tenant>, rootId: nat, found: seq<Tenant>) returns (tree: seq<TreeNode>, err: bool)
    requires Placed(rows) && (rootId in rows ==> PrefixQuery(rows, rows[rootId].path, found))
    ensures err <==> rootId !in rows
    ensures !err ==> IsForest(found, Children(found, rows[rootId].parent), tree)
    ensures !err ==> multiset(Flatten(tree)) == multiset(set id | id in rows && IsAncestorOrSelf(rows, rootId, id))
    ensures !err ==> Hangs(rows, tree, rows[rootId].parent)
    ensures !err && ByLevelAndId(found) ==> SiblingsAscend(tree)
  {
    if rootId !in rows {
      return [], true;
    }
    err := false;
    TableIsRanked(rows, found);
    assert PlacedAt(rows, rows[rootId]);
    tree := BuildTree(found, rows[rootId].parent, Levels(rows), Deepest(found));
    SubtreeOnce(rows, rootId, found, tree);
    ChildrenInside(found, rows[rootId].parent);
    ForestHangs(rows, found, Children(found, rows[rootId].parent), rows[rootId].parent, tree);
    if ByLevelAndId(found) {
      AllChildrenAscend(rows, found, rows[rootId].parent);
      ForestAscends(rows, found, Children(found, rows[rootId].parent), tree);
    }
  }

  /** GetTenantTree without a root: every tenant occurs exactly once, and nothing else. */
  method GetFullTree(rows: map<nat, Tenant>, found: seq<Tenant>) returns (tree: seq<TreeNode>)
    requires Placed(rows) && FullQuery(rows, found)
    ensures IsForest(found, Children(found, None), tree)
    ensures multiset(Flatten(tree)) == multiset(rows.Keys)
    ensures Hangs(rows, tree, None)
    ensures ByLevelAndId(found) ==> SiblingsAscend(tree)
  {
    TableIsRanked(rows, found);
    tree := BuildTree(found, None, Levels(rows), Deepest(found));
    TableOnce(rows, found, tree);
    ChildrenInside(found, None);
    ForestHangs(rows, found, Children(found, None), None, tree);
    if ByLevelAndId(found) {
      AllChildrenAscend(rows, found, None);
      ForestAscends(rows, found, Children(found, None), tree);
    }
  }
}
