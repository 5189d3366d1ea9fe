/**
  The vTPMs of an open group (stubdom/vtpmmgr/vtpm_disk.c): a dense list over pages of 48, kept
  dense by moving the last vTPM into the place of a deleted one.
 */
module VtpmIndex {
  import opened Common
  import DiskRecovery
  import DiskStore
  import HashTree

  const VTPMS_PER_SECTOR: nat := HashTree.VTPMS_PER_SECTOR

  type Uuid = seq<bv8>

  class MemVtpm {
    const uuid: Uuid
    var open: bool
    var indexInParent: nat

    constructor (uuid: Uuid, index: nat)
      ensures this.uuid == uuid && !open && indexInParent == index
    {
      this.uuid, open, indexInParent := uuid, false, index;
    }
  }

  /** A page: its sector, 0 if it must be written again, the digest of its disk copy, and its
      slots, of which `size` are taken. */
  datatype VtpmPage = VtpmPage(loc: nat, hash: HashTree.Hash, size: nat, vtpms: seq<MemVtpm?>)

  const EMPTY: VtpmPage := VtpmPage(0, HashTree.PageHash([]), 0, seq(VTPMS_PER_SECTOR, _ => null))

  /** The size the reader gives to page p of a group of n vTPMs. */
  function PageSize(n: nat, p: nat): int {
    if n - p * VTPMS_PER_SECTOR > VTPMS_PER_SECTOR then VTPMS_PER_SECTOR else n - p * VTPMS_PER_SECTOR
  }

  /** The list with entry i replaced by the last, which is dropped from the end. */
  function SwapRemove<T>(s: seq<T>, i: nat): (r: seq<T>)
    requires i < |s|
    ensures |r| == |s| - 1
  {
    s[i := s[|s| - 1]][..|s| - 1]
  }

  /** It removes exactly that entry. */
  lemma SwapRemoveIs<T>(s: seq<T>, i: nat)
    requires i < |s| && Distinct(s)
    ensures forall k {:trigger SwapRemove(s, i)[k]} | 0 <= k < |s| - 1 ::
              if k == i then SwapRemove(s, i)[k] == s[|s| - 1] else SwapRemove(s, i)[k] == s[k] != s[|s| - 1]
    ensures Distinct(SwapRemove(s, i)) && forall x :: x in SwapRemove(s, i) <==> x in s && x != s[i]
  {
    var r, n := SwapRemove(s, i), |s| - 1;
    forall x | x in s && x != s[i] ensures x in r {
      var k :| 0 <= k < |s| && s[k] == x;
      assert r[if k == n then i else k] == x;
    }
    forall k | 0 <= k < |r| ensures r[k] in s && r[k] != s[i] {
      assert r[k] == if k == i then s[n] else s[k];
    }
  }

  lemma DistinctAppend<T>(s: seq<T>, x: T)
    requires Distinct(s) && x !in s
    ensures Distinct(s + [x])
  {
  }

  /** Entry g stands on page g / 48 in slot g % 48, and every page is full except the last. */
  ghost predicate Dense(data: seq<VtpmPage>, pages: nat, contents: seq<MemVtpm>) {
    && pages == DiskRecovery.PagesFor(|contents|) && pages <= |data|
    && (forall p | 0 <= p < pages :: |data[p].vtpms| == VTPMS_PER_SECTOR && data[p].size == PageSize(|contents|, p))
    && (forall g | 0 <= g < |contents| :: data[g / VTPMS_PER_SECTOR].vtpms[g % VTPMS_PER_SECTOR] == contents[g])
  }

  lemma PageOf(n: nat, g: nat)
    requires g < n
    ensures g / VTPMS_PER_SECTOR < DiskRecovery.PagesFor(n) && g % VTPMS_PER_SECTOR < PageSize(n, g / VTPMS_PER_SECTOR)
  {
  }

  /** The pages once an entry has been put behind the last. */
  function Appended(data: seq<VtpmPage>, n: nat, v: MemVtpm): seq<VtpmPage>
    requires n / VTPMS_PER_SECTOR < |data| && |data[n / VTPMS_PER_SECTOR].vtpms| == VTPMS_PER_SECTOR
  {
    var p, k := n / VTPMS_PER_SECTOR, n % VTPMS_PER_SECTOR;
    data[p := data[p].(size := data[p].size + 1, vtpms := data[p].vtpms[k := v])]
  }

  lemma AppendDense(data: seq<VtpmPage>, pages: nat, contents: seq<MemVtpm>, v: MemVtpm)
    requires Dense(data, pages, contents)
    requires |contents| / VTPMS_PER_SECTOR < pages || (pages < |data| && data[pages] == EMPTY)
    ensures var n := |contents|; var p := n / VTPMS_PER_SECTOR;
            && p <= pages && p < |data| && data[p].size == n % VTPMS_PER_SECTOR && |data[p].vtpms| == VTPMS_PER_SECTOR
            && Dense(Appended(data, n, v), if p < pages then pages else pages + 1, contents + [v])
  {
    var n, c := |contents|, contents + [v];
    var p, k := n / 48, n % 48;
    assert DiskRecovery.PagesFor(n) == if k == 0 then p else p + 1;
    assert DiskRecovery.PagesFor(n + 1) == p + 1;
    var d := Appended(data, n, v);
    forall g | 0 <= g < |c| ensures d[g / 48].vtpms[g % 48] == c[g] {
      if g < n {
        assert c[g] == contents[g];
        assert g / 48 == p && g % 48 == k ==> g == n;
      }
    }
    forall q | 0 <= q < p + 1 ensures |d[q].vtpms| == 48 && d[q].size == PageSize(n + 1, q) {
      assert q < p ==> PageSize(n, q) == 48 == PageSize(n + 1, q);
    }
  }

  /** The pages once the last entry has been moved to place i. */
  function Removed(data: seq<VtpmPage>, pages: nat, i: nat): seq<VtpmPage>
    requires 0 < pages <= |data| && i / VTPMS_PER_SECTOR < pages && 0 < data[pages - 1].size <= VTPMS_PER_SECTOR
    requires forall p | 0 <= p < pages :: |data[p].vtpms| == VTPMS_PER_SECTOR
  {
    var p, l := i / VTPMS_PER_SECTOR, pages - 1;
    var last := data[l].vtpms[data[l].size - 1];
    var d := data[p := data[p].(loc := 0, vtpms := data[p].vtpms[i % VTPMS_PER_SECTOR := last])];
    d[l := d[l].(loc := 0, size := d[l].size - 1, vtpms := d[l].vtpms[d[l].size - 1 := null])]
  }

  /** Both pages that change have to be written again. */
  lemma RemovedIsDirty(data: seq<VtpmPage>, pages: nat, i: nat)
    requires 0 < pages <= |data| && i / VTPMS_PER_SECTOR < pages && 0 < data[pages - 1].size <= VTPMS_PER_SECTOR
    requires forall p | 0 <= p < pages :: |data[p].vtpms| == VTPMS_PER_SECTOR
    ensures |Removed(data, pages, i)| == |data|
    ensures forall p | 0 <= p < |data| && Removed(data, pages, i)[p] != data[p] :: Removed(data, pages, i)[p].loc == 0
  {
  }

  lemma LastEntry(data: seq<VtpmPage>, pages: nat, contents: seq<MemVtpm>)
    requires Dense(data, pages, contents) && contents != []
    ensures var n, l := |contents| - 1, pages - 1;
            && 0 < pages <= |data| && |data[l].vtpms| == VTPMS_PER_SECTOR
            && l == n / VTPMS_PER_SECTOR && data[l].size == n % VTPMS_PER_SECTOR + 1
            && data[l].vtpms[data[l].size - 1] == contents[n]
  {
    var n := |contents| - 1;
    assert DiskRecovery.PagesFor(n + 1) == n / 48 + 1;
    assert data[n / 48].vtpms[n % 48] == contents[n];
  }

  lemma RemovedEntry(data: seq<VtpmPage>, pages: nat, contents: seq<MemVtpm>, i: nat, g: nat)
    requires Dense(data, pages, contents) && i < |contents| && g < |contents| - 1
    requires i / VTPMS_PER_SECTOR < pages && 0 < data[pages - 1].size <= VTPMS_PER_SECTOR
    ensures g / VTPMS_PER_SECTOR < pages && |Removed(data, pages, i)[g / VTPMS_PER_SECTOR].vtpms| == VTPMS_PER_SECTOR
    ensures Removed(data, pages, i)[g / VTPMS_PER_SECTOR].vtpms[g % VTPMS_PER_SECTOR] == SwapRemove(contents, i)[g]
  {
    LastEntry(data, pages, contents);
    var n := |contents| - 1;
    PageOf(n + 1, g);
    assert data[g / 48].vtpms[g % 48] == contents[g];
    assert g / 48 == n / 48 && g % 48 == n % 48 ==> g == n;
    assert g / 48 == i / 48 && g % 48 == i % 48 ==> g == i;
    hide DiskRecovery.PagesFor, PageSize;
  }

  lemma RemoveDense(data: seq<VtpmPage>, pages: nat, contents: seq<MemVtpm>, i: nat)
    requires Dense(data, pages, contents) && i < |contents|
    ensures i / VTPMS_PER_SECTOR < pages <= |data| && 0 < data[pages - 1].size <= VTPMS_PER_SECTOR
    ensures forall p | 0 <= p < pages :: |data[p].vtpms| == VTPMS_PER_SECTOR
    ensures var pages' := if data[pages - 1].size == 1 then pages - 1 else pages;
            Dense(Removed(data, pages, i), pages', SwapRemove(contents, i))
  {
    LastEntry(data, pages, contents);
    var n, c := |contents| - 1, SwapRemove(contents, i);
    PageOf(n + 1, i);
    var d, l, k := Removed(data, pages, i), n / 48, n % 48;
    assert DiskRecovery.PagesFor(n) == if k == 0 then l else l + 1;
    forall q | 0 <= q < DiskRecovery.PagesFor(n) ensures |d[q].vtpms| == 48 && d[q].size == PageSize(n, q) {
      assert q < l ==> PageSize(n, q) == 48 == PageSize(n + 1, q);
    }
    hide Removed, SwapRemove, PageSize, DiskRecovery.PagesFor;
    forall g | 0 <= g < n ensures g / 48 < |d| && |d[g / 48].vtpms| == 48 && d[g / 48].vtpms[g % 48] == c[g] {
      RemovedEntry(data, pages, contents, i, g);
    }
  }

  // ----- what the disk code sees of a group -----

  /** Every page is as it was, or has to be written again. */
  ghost predicate ChangedPages(data: seq<VtpmPage>, pages: nat, data': seq<VtpmPage>, pages': nat) {
    && pages <= |data| && pages' <= |data'|
    && forall p | 0 <= p < pages' :: data'[p].loc == 0 || (p < pages && data'[p] == data[p])
  }

  /** The page as it is written, where `bytes` is what is stored of each vTPM. */
  function PageView(page: VtpmPage, bytes: MemVtpm? -> HashTree.Vtpm): DiskStore.Page
    requires page.size <= |page.vtpms|
  {
    DiskStore.Page(seq(page.size, k requires 0 <= k < page.size => bytes(page.vtpms[k])), page.loc, page.hash)
  }

  function View(data: seq<VtpmPage>, pages: nat, bytes: MemVtpm? -> HashTree.Vtpm): seq<DiskStore.Page>
    requires pages <= |data| && forall p | 0 <= p < pages :: data[p].size <= |data[p].vtpms|
  {
    seq(pages, p requires 0 <= p < pages => PageView(data[p], bytes))
  }

  /** Dense pages are what the reader rebuilds from the number of vTPMs: 48 on each page but the last. */
  lemma ViewOfDense(data: seq<VtpmPage>, pages: nat, contents: seq<MemVtpm>, bytes: MemVtpm? -> HashTree.Vtpm)
    requires Dense(data, pages, contents)
    ensures forall p | 0 <= p < pages :: data[p].size <= |data[p].vtpms|
    ensures |View(data, pages, bytes)| == DiskRecovery.PagesFor(|contents|)
    ensures forall g | 0 <= g < |contents| ::
      var p, k := g / VTPMS_PER_SECTOR, g % VTPMS_PER_SECTOR;
      p < pages && k < |View(data, pages, bytes)[p].data| && View(data, pages, bytes)[p].data[k] == bytes(contents[g])
  {
    forall g | 0 <= g < |contents|
      ensures var p, k := g / VTPMS_PER_SECTOR, g % VTPMS_PER_SECTOR;
        p < pages && k < |View(data, pages, bytes)[p].data| && View(data, pages, bytes)[p].data[k] == bytes(contents[g])
    {
      PageOf(|contents|, g);
    }
  }

  /** Adding or deleting a vTPM leaves a group that remembers of the disk only what it remembered
      before, whether the group is then invalidated, as by vtpm_sync, or not, as by the command
      that deletes a vTPM. */
  lemma ChangeIsDerived(data: seq<VtpmPage>, pages: nat, data': seq<VtpmPage>, pages': nat, contents': seq<MemVtpm>,
      bytes: MemVtpm? -> HashTree.Vtpm, g: DiskStore.Group, meta': HashTree.GroupMeta)
    requires ChangedPages(data, pages, data', pages') && Dense(data', pages', contents')
    requires forall p | 0 <= p < pages :: data[p].size <= |data[p].vtpms|
    requires g.v.Some? && g.v.value.pages == View(data, pages, bytes)
    ensures forall p | 0 <= p < pages' :: data'[p].size <= |data'[p].vtpms|
    ensures DiskStore.Derived(g, DiskStore.Group(0, g.hash, g.inuse,
        Some(DiskStore.OpenGroup(meta', |contents'|, View(data', pages', bytes)))))
    ensures g.loc != 0 ==>
      DiskStore.Derived(g, g.(v := Some(DiskStore.OpenGroup(g.v.value.meta, |contents'|, View(data', pages', bytes)))))
  {
    ViewOfDense(data', pages', contents', bytes);
    var ps, ps' := View(data, pages, bytes), View(data', pages', bytes);
    forall p | 0 <= p < pages' ensures ps'[p].loc == 0 || ps'[p] in ps {
      assert p < pages && data'[p] == data[p] ==> ps'[p] == ps[p];
    }
  }

  /** Without vtpm_sync the group would claim that the page of a new vTPM is on disk, exactly if
      the page was on disk before. */
  lemma CreateNeedsSyncIff(d: HashTree.Disk, page: VtpmPage, page': VtpmPage, bytes: MemVtpm? -> HashTree.Vtpm)
    requires page.size < page'.size <= |page'.vtpms| && page.size <= |page.vtpms|
    requires page'.loc == page.loc && page'.hash == page.hash
    requires DiskStore.PageOnDisk(d, PageView(page, bytes))
    ensures DiskStore.PageOnDisk(d, PageView(page', bytes)) <==> page.loc == 0
  {
    assert |PageView(page, bytes).data| < |PageView(page', bytes).data|;
  }

  class MemGroup {
    var data: seq<VtpmPage>
    var nrPages: nat
    var nrVtpms: nat
    ghost var contents: seq<MemVtpm>

    ghost predicate Valid()
      reads this, contents
    {
      && nrVtpms == |contents| && Dense(data, nrPages, contents) && Distinct(contents)
      && forall g | 0 <= g < |contents| :: contents[g].indexInParent == g
    }

    constructor ()
      ensures Valid() && contents == []
    {
      data, nrPages, nrVtpms, contents := [], 0, 0, [];
    }

    /** create_vtpm: the new vTPM comes last; neither consistency check fails. */
    method CreateVtpm(uuid: Uuid) returns (vtpm: MemVtpm)
      requires Valid()
      modifies this
      ensures Valid() && fresh(vtpm) && contents == old(contents) + [vtpm]
      ensures vtpm.uuid == uuid && !vtpm.open && vtpm.indexInParent == old(nrVtpms)
      ensures forall p | 0 <= p < nrPages && p != old(nrVtpms) / VTPMS_PER_SECTOR ::
        p < old(nrPages) && data[p] == old(data)[p]
      ensures var p := old(nrVtpms) / VTPMS_PER_SECTOR;
              && p < nrPages && data[p].size == old(nrVtpms) % VTPMS_PER_SECTOR + 1
              && (p < old(nrPages) ==> data[p].loc == old(data)[p].loc && data[p].hash == old(data)[p].hash)
    {
      hide Distinct;
      var pgidx, vtidx := nrVtpms / VTPMS_PER_SECTOR, nrVtpms % VTPMS_PER_SECTOR;
      vtpm := new MemVtpm(uuid, nrVtpms);
      ghost var pages := nrPages;
      if pgidx >= nrPages {
        assert pgidx == nrPages by {
          NextPage(|contents|);
        }
        data := data[..pgidx] + [EMPTY];
        nrPages := nrPages + 1;
      }
      AppendDense(data, pages, contents, vtpm);
      DistinctAppend(contents, vtpm);
      assert data[pgidx].size == vtidx;
      data := Appended(data, nrVtpms, vtpm);
      nrVtpms := nrVtpms + 1;
      contents := contents + [vtpm];
    }

    /** What vtpm_sync does to the group: the page of the vTPM has to be written again. */
    method InvalidatePage(vtpm: MemVtpm)
      requires Valid() && vtpm in contents
      modifies this`data
      ensures Valid() && |data| == |old(data)|
      ensures var p := vtpm.indexInParent / VTPMS_PER_SECTOR;
              p < nrPages && data == old(data)[p := old(data)[p].(loc := 0)]
    {
      var p := vtpm.indexInParent / VTPMS_PER_SECTOR;
      PageOf(nrVtpms, vtpm.indexInParent);
      data := data[p := data[p].(loc := 0)];
    }

    /** create_vtpm and vtpm_sync, as the command that adds a vTPM calls them. */
    method AddVtpm(uuid: Uuid) returns (vtpm: MemVtpm)
      requires Valid()
      modifies this
      ensures Valid() && fresh(vtpm) && contents == old(contents) + [vtpm] && vtpm.uuid == uuid
      ensures ChangedPages(old(data), old(nrPages), data, nrPages)
    {
      vtpm := CreateVtpm(uuid);
      InvalidatePage(vtpm);
    }

    /** delete_vtpm: refused while the vTPM is open; otherwise the last one takes its place and
        both pages have to be written again. */
    method DeleteVtpm(vtpm: MemVtpm) returns (rc: int)
      requires Valid() && vtpm in contents
      modifies this, contents`indexInParent
      ensures rc == if old(vtpm.open) then 1 else 0
      ensures rc == 1 ==>
        unchanged(this) && Valid() && forall v | v in contents :: v.indexInParent == old(v.indexInParent)
      ensures rc == 0 ==> Valid() && contents == SwapRemove(old(contents), old(vtpm.indexInParent))
      ensures rc == 0 ==> forall v :: v in contents <==> v in old(contents) && v != vtpm
      ensures rc == 0 ==> ChangedPages(old(data), old(nrPages), data, nrPages)
    {
      if vtpm.open {
        return 1;
      }
      hide Dense, Distinct, Removed, SwapRemove;
      ghost var i := vtpm.indexInParent;
      assert contents[i] == vtpm;
      RemoveDense(data, nrPages, contents, i);
      RemovedIsDirty(data, nrPages, i);
      SwapRemoveIs(contents, i);
      Remove(vtpm, i);
      return 0;
    }

    method Remove(vtpm: MemVtpm, ghost i: nat)
      requires Valid() && i < |contents| && contents[i] == vtpm
      requires i / VTPMS_PER_SECTOR < nrPages && 0 < data[nrPages - 1].size <= VTPMS_PER_SECTOR
      requires forall p | 0 <= p < nrPages :: |data[p].vtpms| == VTPMS_PER_SECTOR
      modifies this, contents`indexInParent
      ensures Valid() && contents == SwapRemove(old(contents), i) && data == Removed(old(data), old(nrPages), i)
      ensures nrPages <= old(nrPages)
    {
      hide Dense, Distinct, Removed, SwapRemove;
      LastEntry(data, nrPages, contents);
      RemoveDense(data, nrPages, contents, i);
      SwapRemoveIs(contents, i);
      var lastPage := data[nrPages - 1];
      var last := lastPage.vtpms[lastPage.size - 1];
      data := Removed(data, nrPages, vtpm.indexInParent);
      last.indexInParent := vtpm.indexInParent;
      nrPages := if lastPage.size == 1 then nrPages - 1 else nrPages;
      nrVtpms := nrVtpms - 1;
      contents := SwapRemove(contents, i);
    }

    /** The inner loops of find_vtpm: the first vTPM of this group with the UUID, if there is one. */
    method Find(uuid: Uuid) returns (r: MemVtpm?)
      requires Valid()
      ensures r == null ==> forall v | v in contents :: v.uuid != uuid
      ensures r != null ==> r in contents && r.uuid == uuid
      ensures r != null ==> forall v | v in contents && v.uuid == uuid :: r.indexInParent <= v.indexInParent
    {
      for j := 0 to nrPages
        invariant forall g | 0 <= g < |contents| && g < 48 * j :: contents[g].uuid != uuid
      {
        var page := data[j];
        for k := 0 to page.size
          invariant forall g | 0 <= g < |contents| && g < 48 * j + k :: contents[g].uuid != uuid
        {
          EntryAt(j, k);
          var vt := page.vtpms[k];
          if vt.uuid == uuid {
            return vt;
          }
        }
      }
      return null;
    }

    lemma EntryAt(j: nat, k: nat)
      requires Valid() && j < nrPages && k < data[j].size
      ensures 48 * j + k < |contents| && k < 48 && |data[j].vtpms| == 48 && data[j].vtpms[k] == contents[48 * j + k]
    {
      var g := 48 * j + k;
      assert g / 48 == j && g % 48 == k;
    }
  }

  lemma NextPage(n: nat)
    ensures n / VTPMS_PER_SECTOR <= DiskRecovery.PagesFor(n)
  {
  }

  /** None of the first n groups holds a vTPM with the UUID. */
  ghost predicate NoneBefore(groups: seq<MemGroup?>, n: nat, uuid: Uuid)
    requires n <= |groups|
    reads set g | g in groups && g != null
  {
    forall g, v | g in groups[..n] && g != null && v in g.contents :: v.uuid != uuid
  }

  /** find_vtpm over the groups, of which only the open ones are in memory. */
  method FindVtpm(groups: seq<MemGroup?>, uuid: Uuid) returns (rc: int, group: MemGroup?, vtpm: MemVtpm?)
    requires forall g | g in groups && g != null :: g.Valid()
    ensures rc == 0 <==> exists g, v :: g in groups && g != null && v in g.contents && v.uuid == uuid
    ensures rc == 0 ==> group in groups && group != null && vtpm != null && vtpm in group.contents && vtpm.uuid == uuid
    ensures rc == 0 ==> exists i :: 0 <= i < |groups| && groups[i] == group && NoneBefore(groups, i, uuid)
    ensures rc == 0 || rc == 1
  {
    group, vtpm := null, null;
    for i := 0 to |groups|
      invariant NoneBefore(groups, i, uuid)
    {
      group := groups[i];
      if group != null {
        assert group in groups;
        vtpm := group.Find(uuid);
        if vtpm != null {
          return 0, group, vtpm;
        }
      }
      assert groups[..i + 1] == groups[..i] + [groups[i]];
    }
    assert groups[..|groups|] == groups;
    return 1, null, null;
  }
}
