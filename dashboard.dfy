/** The page logic around the catalog: the village search, the choice of a
    village, and the placement of its images on a four-column grid. */
module Dashboard {
  import opened Text
  import opened Catalog

  /** The gallery has four images per row. */
  const Columns: nat := 4

  /** The search text as the page uses it: stripped, then lower-cased. */
  function Query(raw: string): string {
    Lower(Strip(raw))
  }

  /** The test `q in v.name.lower()`, as a value for `Filter`. */
  function NameContains(q: string): Entry -> bool {
    (v: Entry) => Contains(Lower(v.name), q)
  }

  /** The search filter: an empty query keeps every village, otherwise only
      those whose lower-cased name contains the query. */
  function SearchFilter(vs: seq<Entry>, raw: string): seq<Entry> {
    var q := Query(raw);
    if q == [] then vs else Filter(vs, NameContains(q))
  }

  /** A query of whitespace only keeps the list as it is. */
  lemma SearchBlank(vs: seq<Entry>, raw: string)
    requires forall k :: 0 <= k < |raw| ==> IsSpace(raw[k])
    ensures SearchFilter(vs, raw) == vs
  {
    StripBlank(raw);
    assert Lower([]) == [];
  }

  /** A non-empty query keeps the villages in their order. */
  lemma SearchKeepsOrder(vs: seq<Entry>, raw: string)
    ensures IsSubsequence(SearchFilter(vs, raw), vs)
  {
    if Query(raw) == [] {
      SubsequenceOfItself(vs);
    } else {
      FilterIsSubsequence(vs, NameContains(Query(raw)));
    }
  }

  /** A non-empty query keeps exactly the villages in whose lower-cased name
      it occurs, each as often as it was there. */
  lemma SearchSelect(vs: seq<Entry>, raw: string)
    requires Query(raw) != []
    ensures forall v ::
              multiset(SearchFilter(vs, raw))[v] ==
              (if Occurs(Lower(v.name), Query(raw)) then multiset(vs)[v] else 0)
  {
    var q := Query(raw);
    forall v
      ensures multiset(SearchFilter(vs, raw))[v] ==
        (if Occurs(Lower(v.name), q) then multiset(vs)[v] else 0)
    {
      FilterCounts(vs, NameContains(q), v);
      assert NameContains(q)(v) == Contains(Lower(v.name), q);
      ContainsIff(Lower(v.name), q);
    }
  }

  /** Searching the result again with the same text changes nothing. */
  lemma SearchIdempotent(vs: seq<Entry>, raw: string)
    ensures SearchFilter(SearchFilter(vs, raw), raw) == SearchFilter(vs, raw)
  {
    if Query(raw) != [] {
      FilterIdempotent(vs, NameContains(Query(raw)));
    }
  }

  /** The column of the `i`-th image: `i % 4`. */
  function Column(i: nat): (c: nat)
    ensures c < Columns
    ensures (i - c) % Columns == 0
  {
    i % Columns
  }

  /** Images 0 to 4 go to columns 0, 1, 2, 3 and 0. */
  lemma ColumnExample()
    ensures [Column(0), Column(1), Column(2), Column(3), Column(4)] == [0, 1, 2, 3, 0]
  {
  }

  /** The columns after the loop over `enumerate(imgs)` has appended each
      image to column `i % 4`. */
  function Grid(imgs: seq<Entry>): (g: seq<seq<Entry>>)
    ensures |g| == Columns
  {
    if imgs == [] then [[], [], [], []]
    else
      var n := |imgs| - 1;
      var g := Grid(imgs[..n]);
      g[Column(n) := g[Column(n)] + [imgs[n]]]
  }

  /** Column `c` holds the images `c`, `c + 4`, `c + 8`, ... in order, and no
      other: `(n + 3 - c) / 4` of the `n` images. */
  lemma {:induction false} GridColumns(imgs: seq<Entry>, c: nat)
    requires c < Columns
    ensures |Grid(imgs)[c]| == (|imgs| + 3 - c) / 4
    ensures forall k :: 0 <= k < |Grid(imgs)[c]| ==> 4 * k + c < |imgs| && Grid(imgs)[c][k] == imgs[4 * k + c]
  {
    if imgs != [] {
      var n := |imgs| - 1;
      GridColumns(imgs[..n], c);
      var before := Grid(imgs[..n])[c];
      if Column(n) == c {
        assert n == 4 * |before| + c;
        assert Grid(imgs)[c] == before + [imgs[n]];
      } else {
        assert Grid(imgs)[c] == before;
      }
    }
  }

  /** Image `i` is found in column `i % 4`, row `i / 4`. */
  lemma GridPlacement(imgs: seq<Entry>, i: nat)
    requires i < |imgs|
    ensures i / 4 < |Grid(imgs)[Column(i)]| && Grid(imgs)[Column(i)][i / 4] == imgs[i]
  {
    GridColumns(imgs, Column(i));
  }

  /** The columns hold every image once: their lengths add up to the count. */
  lemma GridHoldsAll(imgs: seq<Entry>)
    ensures var g := Grid(imgs); |g[0]| + |g[1]| + |g[2]| + |g[3]| == |imgs|
  {
    GridColumns(imgs, 0);
    GridColumns(imgs, 1);
    GridColumns(imgs, 2);
    GridColumns(imgs, 3);
  }

  /** What the page shows. */
  datatype Page =
    | NoVillages                                           // the "No villages found." warning
    | EmptyVillage(village: string)                        // the "No images" notice
    | Gallery(village: string, grid: seq<seq<Entry>>)      // the four columns of images

  /** The folder `PHOTOS_ROOT / name`: the snapshot holds the children of
      each village folder that exists. */
  function FolderOf(tree: map<string, seq<Entry>>, name: string): Folder {
    if name in tree then Folder(true, tree[name]) else Folder(false, [])
  }

  /** One run of the page. `root` holds the children of the photo root, `raw`
      the search box, `pick` the position chosen in the village selector and
      `tree` the children of the village folders. */
  function Render(root: seq<Entry>, raw: string, pick: nat, tree: map<string, seq<Entry>>): Page
    requires var vs := SearchFilter(Villages(root), raw); vs == [] || pick < |vs|
  {
    var vs := SearchFilter(Villages(root), raw);
    if vs == [] then NoVillages
    else
      var name := vs[pick].name;
      var imgs := ListImages(FolderOf(tree, name));
      if imgs == [] then EmptyVillage(name) else Gallery(name, Grid(imgs))
  }

  /** The page warns exactly when no visible village matches the search; a
      gallery is shown for a matching visible village whose folder holds
      images, laid out by `Grid`; otherwise that village is reported empty. */
  lemma RenderSpec(root: seq<Entry>, raw: string, pick: nat, tree: map<string, seq<Entry>>)
    requires var vs := SearchFilter(Villages(root), raw); vs == [] || pick < |vs|
    ensures Render(root, raw, pick, tree).NoVillages? <==>
      forall e :: e in root && IsVillage(e) ==> Query(raw) != [] && !Contains(Lower(e.name), Query(raw))
    ensures !Render(root, raw, pick, tree).NoVillages? ==>
      var name := Render(root, raw, pick, tree).village;
      var imgs := ListImages(FolderOf(tree, name));
      && (exists e :: e in root && IsVillage(e) && e.name == name)
      && (Query(raw) != [] ==> Contains(Lower(name), Query(raw)))
      && (Render(root, raw, pick, tree).EmptyVillage? <==> imgs == [])
      && (Render(root, raw, pick, tree).Gallery? ==> Render(root, raw, pick, tree).grid == Grid(imgs))
  {
    var vs := SearchFilter(Villages(root), raw);
    var q := Query(raw);
    VillagesSelect(root);
    if q != [] {
      FilterMembers(Villages(root), NameContains(q));
    }
    if vs != [] {
      assert vs[pick] in vs;
    }
  }
}
