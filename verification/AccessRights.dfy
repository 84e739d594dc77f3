/** What the processor lets a program do with a page: the rights of all entries on the way to it, taken together. */
module AccessRights {
  import opened Results
  import opened PageEntry
  import opened VirtAddr
  import opened PageTree

  /** Access from user mode, stores, and instruction fetches. */
  datatype Rights = Rights(user: bool, write: bool, execute: bool)

  const ALL_RIGHTS := Rights(true, true, true)

  /** What one entry admits; bit 63, the topmost of the high bits, forbids execution. */
  function RightsOf(flags: Flags): Rights {
    Rights(flags.user, flags.writable, flags.high < 0x800)
  }

  /** What both admit. */
  function And(r: Rights, s: Rights): Rights {
    Rights(r.user && s.user, r.write && s.write, r.execute && s.execute)
  }

  /** The walk of the processor, which takes the rights of every entry it passes together. */
  function AccessWalk(mem: seq<Page>, depth: nat, v: Node, d: nat, frame: nat, rights: Rights): Option<Rights>
    requires d < depth == Depth(v)
    decreases depth - d
  {
    if frame >= |mem| then None
    else
      var e := mem[frame][Prefix(v, d + 1).index];
      if !e.flags.present then None
      else if MapsMemory(depth, d + 1, e) then Some(And(rights, RightsOf(e.flags)))
      else AccessWalk(mem, depth, v, d + 1, e.frame, And(rights, RightsOf(e.flags)))
  }

  /** The flags of the entry at a position, in the table above it. */
  ghost function FlagsAt(mem: seq<Page>, t: Tree, p: Node): Flags {
    if p.Child? && p.up in t.tables && t.tables[p.up] < |mem| then mem[t.tables[p.up]][p.index].flags else NO_FLAGS
  }

  /** What the entries on the way to a table admit together. */
  ghost function TableRights(mem: seq<Page>, t: Tree, p: Node): Rights {
    match p
    case Root => ALL_RIGHTS
    case Child(up, _) => And(TableRights(mem, t, up), RightsOf(FlagsAt(mem, t, p)))
  }

  /** What a page admits. */
  ghost function PageRights(mem: seq<Page>, t: Tree, l: Node): Rights
    requires l.Child? && l in t.leaves
  {
    And(TableRights(mem, t, l.up), RightsOf(t.leaves[l].flags))
  }

  /** From any table on the way to a page the processor finds the rights of the page. */
  lemma {:induction false} WalkFindsRights(mem: seq<Page>, t: Tree, v: Node, d: nat, l: Node)
    requires Holds(mem, t) && Depth(v) == t.depth && d < t.depth && Prefix(v, d) in t.tables
    requires l in t.leaves && l.Child? && On(l, v) && d < Depth(l)
    ensures AccessWalk(mem, t.depth, v, d, t.tables[Prefix(v, d)], TableRights(mem, t, Prefix(v, d))) ==
            Some(PageRights(mem, t, l))
    decreases t.depth - d
  {
    hide Holds, EntryAgrees, AccessWalk;
    AccessStep(mem, t, v, d, l);
    if d + 1 < Depth(l) {
      WalkFindsRights(mem, t, v, d + 1, l);
    }
  }

  lemma AccessStep(mem: seq<Page>, t: Tree, v: Node, d: nat, l: Node)
    requires Holds(mem, t) && Depth(v) == t.depth && d < t.depth && Prefix(v, d) in t.tables
    requires l in t.leaves && l.Child? && On(l, v) && d < Depth(l)
    ensures d + 1 <= Depth(l) <= t.depth
    ensures d + 1 == Depth(l) ==>
              AccessWalk(mem, t.depth, v, d, t.tables[Prefix(v, d)], TableRights(mem, t, Prefix(v, d))) ==
              Some(PageRights(mem, t, l))
    ensures d + 1 < Depth(l) ==>
              && Prefix(v, d + 1) in t.tables
              && AccessWalk(mem, t.depth, v, d, t.tables[Prefix(v, d)], TableRights(mem, t, Prefix(v, d))) ==
                 AccessWalk(mem, t.depth, v, d + 1, t.tables[Prefix(v, d + 1)], TableRights(mem, t, Prefix(v, d + 1)))
  {
    hide Holds, RightsOf, And;
    var p, q := Prefix(v, d), Prefix(v, d + 1);
    EntryOnTheWay(mem, t, v, d, l);
    if d + 1 < Depth(l) {
      assert TableRights(mem, t, q) == And(TableRights(mem, t, p), RightsOf(FlagsAt(mem, t, q)));
    }
  }

  /** What the entry says that the walk reads next. */
  lemma EntryOnTheWay(mem: seq<Page>, t: Tree, v: Node, d: nat, l: Node)
    requires Holds(mem, t) && Depth(v) == t.depth && d < t.depth && Prefix(v, d) in t.tables
    requires l in t.leaves && On(l, v) && d < Depth(l)
    ensures d + 1 <= Depth(l) <= t.depth && t.tables[Prefix(v, d)] < |mem|
    ensures Prefix(v, d + 1).Child? && Prefix(v, d + 1).up == Prefix(v, d)
    ensures var e := mem[t.tables[Prefix(v, d)]][Prefix(v, d + 1).index];
            && e.flags.present
            && (d + 1 == Depth(l) ==> Prefix(v, d + 1) == l && MapsMemory(t.depth, d + 1, e) && t.leaves[l] == e)
            && (d + 1 < Depth(l) ==>
                  && !MapsMemory(t.depth, d + 1, e)
                  && Prefix(v, d + 1) in t.tables && t.tables[Prefix(v, d + 1)] == e.frame)
  {
    PrefixStep(v, d);
    var p, q := Prefix(v, d), Prefix(v, d + 1);
    assert EntryAgrees(mem, t, p, q.index);
    if d + 1 < Depth(l) {
      AncestorsAreTables(mem, t, l, d + 1);
      PrefixOfPrefix(v, Depth(l), d + 1);
    }
    hide Holds;
  }

  // ---- what operations keep ----

  /** Entries that point to tables before and after have the same flags. */
  ghost predicate TableFlagsStay(mem: seq<Page>, t: Tree, mem': seq<Page>, t': Tree) {
    forall p :: p in t.tables && p in t'.tables && p.Child? ==> FlagsAt(mem', t', p) == FlagsAt(mem, t, p)
  }

  /** Entries that point to new tables are present, writable, for user mode if `user` says so, and nothing else. */
  ghost predicate NewTablesAdmit(mem: seq<Page>, t: Tree, mem': seq<Page>, t': Tree, user: bool) {
    forall p :: p !in t.tables && p in t'.tables && p.Child? ==>
      FlagsAt(mem', t', p) ==
      Flags(true, true, user, false, false, false, false, false, false, false, false, false, 0)
  }

  lemma {:induction false} TableRightsStay(mem: seq<Page>, t: Tree, mem': seq<Page>, t': Tree, p: Node)
    requires Shape(t, |mem|) && Shape(t', |mem'|) && TableFlagsStay(mem, t, mem', t')
    requires p in t.tables && p in t'.tables
    ensures TableRights(mem', t', p) == TableRights(mem, t, p)
    decreases Depth(p)
  {
    if p.Child? {
      TableRightsStay(mem, t, mem', t', p.up);
    }
  }

  /** A page that keeps its entry keeps its rights. */
  lemma PageRightsStay(mem: seq<Page>, t: Tree, mem': seq<Page>, t': Tree, l: Node)
    requires Shape(t, |mem|) && Shape(t', |mem'|) && TableFlagsStay(mem, t, mem', t')
    requires l.Child? && l in t.leaves && l in t'.leaves && t'.leaves[l] == t.leaves[l]
    ensures PageRights(mem', t', l) == PageRights(mem, t, l)
  {
    TableRightsStay(mem, t, mem', t', l.up);
  }

  // ---- a page mapped through old and new tables ----

  /** What the first `d` entries on the way to `v` admit together, as far as they point to tables already. */
  ghost function RightsUpTo(mem: seq<Page>, t: Tree, v: Node, d: nat): Rights
    requires d <= Depth(v)
  {
    Rights(forall k :: 0 < k <= d && Prefix(v, k) in t.tables ==> FlagsAt(mem, t, Prefix(v, k)).user,
           forall k :: 0 < k <= d && Prefix(v, k) in t.tables ==> FlagsAt(mem, t, Prefix(v, k)).writable,
           forall k :: 0 < k <= d && Prefix(v, k) in t.tables ==> FlagsAt(mem, t, Prefix(v, k)).high < 0x800)
  }

  /** New tables take nothing away that is asked for. */
  lemma {:induction false} NewTablesAreNeutral(mem: seq<Page>, t: Tree, mem': seq<Page>, t': Tree, v: Node, d: nat,
                                               asked: Rights)
    requires Shape(t', |mem'|) && TableFlagsStay(mem, t, mem', t') && NewTablesAdmit(mem, t, mem', t', asked.user)
    requires d <= Depth(v) && Prefix(v, d) in t'.tables
    requires forall k :: 0 < k <= d && Prefix(v, k) in t.tables ==> Prefix(v, k) in t'.tables
    ensures And(TableRights(mem', t', Prefix(v, d)), asked) == And(RightsUpTo(mem, t, v, d), asked)
  {
    hide Shape, FlagsAt, RightsUpTo;
    if d == 0 {
      NoEntries(mem, t, v);
    } else {
      TableAbove(t', |mem'|, v, d);
      NewTablesAreNeutral(mem, t, mem', t', v, d - 1, asked);
      OneEntryMore(mem, t, v, d);
      assert TableRights(mem', t', Prefix(v, d)) ==
             And(TableRights(mem', t', Prefix(v, d - 1)), RightsOf(FlagsAt(mem', t', Prefix(v, d))));
    }
  }

  lemma NoEntries(mem: seq<Page>, t: Tree, v: Node)
    ensures RightsUpTo(mem, t, v, 0) == ALL_RIGHTS && Prefix(v, 0) == Root
  {
    assert Depth(Prefix(v, 0)) == 0;
  }

  lemma TableAbove(t: Tree, frames: nat, v: Node, d: nat)
    requires Shape(t, frames) && 0 < d <= Depth(v) && Prefix(v, d) in t.tables
    ensures Prefix(v, d).Child? && Prefix(v, d).up == Prefix(v, d - 1) && Prefix(v, d - 1) in t.tables
  {
    PrefixStep(v, d - 1);
  }

  lemma OneEntryMore(mem: seq<Page>, t: Tree, v: Node, d: nat)
    requires 0 < d <= Depth(v)
    ensures RightsUpTo(mem, t, v, d) ==
            if Prefix(v, d) in t.tables then And(RightsUpTo(mem, t, v, d - 1), RightsOf(FlagsAt(mem, t, Prefix(v, d))))
            else RightsUpTo(mem, t, v, d - 1)
  {
  }

  /** A page mapped into a memory admits what is asked for as far as the tables that were there on its way do: so a
      user page is out of reach if one of them is for the supervisor only. */
  lemma MappedPageAdmits(mem: seq<Page>, t: Tree, mem': seq<Page>, t': Tree, v: Node)
    requires Holds(mem', t') && v.Child? && v in t'.leaves && Depth(v) == t'.depth
    requires forall p :: p in t.tables ==> p in t'.tables
    requires TableFlagsStay(mem, t, mem', t') && NewTablesAdmit(mem, t, mem', t', t'.leaves[v].flags.user)
    ensures AccessWalk(mem', t'.depth, v, 0, t'.root, ALL_RIGHTS) ==
            Some(And(RightsUpTo(mem, t, v, t'.depth - 1), RightsOf(t'.leaves[v].flags)))
  {
    hide FlagsAt, And, RightsUpTo, AccessWalk, EntryAgrees, TableFlagsStay, NewTablesAdmit;
    PrefixStep(v, t'.depth - 1);
    NewTablesAreNeutral(mem, t, mem', t', v, t'.depth - 1, RightsOf(t'.leaves[v].flags));
    WalkFindsRights(mem', t', v, 0, v);
  }

  /** The entry at a position takes nothing away that is asked for. */
  ghost predicate Admits(mem: seq<Page>, t: Tree, p: Node, asked: Rights) {
    And(RightsOf(FlagsAt(mem, t, p)), asked) == asked
  }

  /** So do all of the first `d` entries on the way to `v`, as far as they point to tables already. */
  ghost predicate TablesAdmit(mem: seq<Page>, t: Tree, v: Node, d: nat, asked: Rights)
    requires d <= Depth(v)
  {
    forall k :: 0 < k <= d && Prefix(v, k) in t.tables ==> Admits(mem, t, Prefix(v, k), asked)
  }

  /** The page admits exactly what is asked for if and only if every table that was there already admits that. */
  lemma {:induction false} AdmitsWhatIsAsked(mem: seq<Page>, t: Tree, v: Node, d: nat, asked: Rights)
    requires d <= Depth(v)
    ensures And(RightsUpTo(mem, t, v, d), asked) == asked <==> TablesAdmit(mem, t, v, d, asked)
  {
    hide FlagsAt, RightsUpTo;
    if d == 0 {
      NoEntries(mem, t, v);
    } else {
      OneEntryMore(mem, t, v, d);
      AdmitsWhatIsAsked(mem, t, v, d - 1, asked);
      assert TablesAdmit(mem, t, v, d, asked) <==>
             TablesAdmit(mem, t, v, d - 1, asked)
             && (Prefix(v, d) in t.tables ==> Admits(mem, t, Prefix(v, d), asked));
    }
  }

  /** One table for the supervisor on the way is enough to keep user mode out, whatever is asked for. */
  lemma SupervisorTableHides(mem: seq<Page>, t: Tree, v: Node, d: nat, k: nat, asked: Rights)
    requires 0 < k <= d <= Depth(v) && Prefix(v, k) in t.tables && !FlagsAt(mem, t, Prefix(v, k)).user
    ensures !And(RightsUpTo(mem, t, v, d), asked).user
  {
  }

  // ---- steps ----

  /** Writing one entry leaves the flags of every other. */
  lemma OtherEntryStays(mem: seq<Page>, t: Tree, t': Tree, q: Node, w: Word, p: Node)
    requires Shape(t, |mem|) && q.Child? && q.up in t.tables
    requires p.Child? && p != q && p.up in t.tables && p.up in t'.tables && t'.tables[p.up] == t.tables[p.up]
    ensures FlagsAt(WriteEntry(mem, t.tables[q.up], q.index, w), t', p) == FlagsAt(mem, t, p)
  {
  }

  /** Writing an entry that points to no table leaves the entries that do. */
  lemma StoreKeepsFlags(mem: seq<Page>, t: Tree, q: Node, w: Word, leaves: map<Node, Word>)
    requires Shape(t, |mem|) && q.Child? && q.up in t.tables && q !in t.tables
    ensures TableFlagsStay(mem, t, WriteEntry(mem, t.tables[q.up], q.index, w), t.(leaves := leaves))
  {
    hide FlagsAt, WriteEntry;
    forall p | p in t.tables && p.Child?
      ensures FlagsAt(WriteEntry(mem, t.tables[q.up], q.index, w), t.(leaves := leaves), p) == FlagsAt(mem, t, p)
    {
      OtherEntryStays(mem, t, t.(leaves := leaves), q, w, p);
    }
  }

  /** So does cutting off a table that has none below it. */
  lemma CutKeepsFlags(mem: seq<Page>, t: Tree, q: Node)
    requires Shape(t, |mem|) && q.Child? && q in t.tables
    requires forall p {:trigger p.up} :: p in t.tables && p.Child? ==> p.up != q
    ensures TableFlagsStay(mem, t, WriteEntry(mem, t.tables[q.up], q.index, ZERO), t.(tables := t.tables - {q}))
  {
    hide FlagsAt, WriteEntry;
    var t' := t.(tables := t.tables - {q});
    forall p | p in t.tables && p in t'.tables && p.Child?
      ensures FlagsAt(WriteEntry(mem, t.tables[q.up], q.index, ZERO), t', p) == FlagsAt(mem, t, p)
    {
      OtherEntryStays(mem, t, t', q, ZERO, p);
    }
  }

  /** A new table in a frame that held none; the flags are those written. */
  lemma LinkedFlags(mem: seq<Page>, t: Tree, q: Node, w: Word, frame: nat, user: bool)
    requires Shape(t, |mem|) && q.Child? && q.up in t.tables && q !in t.tables
    requires frame < |mem| && frame !in t.tables.Values
    requires w.flags == Flags(true, true, user, false, false, false, false, false, false, false, false, false, 0)
    ensures var mem' := WriteEntry(mem[frame := ZeroPage()], t.tables[q.up], q.index, w);
            var t' := t.(tables := t.tables[q := frame]);
            TableFlagsStay(mem, t, mem', t') && NewTablesAdmit(mem, t, mem', t', user)
  {
    hide FlagsAt, WriteEntry;
    var clean, t' := mem[frame := ZeroPage()], t.(tables := t.tables[q := frame]);
    var mem' := WriteEntry(clean, t.tables[q.up], q.index, w);
    forall p | p in t.tables && p.Child?
      ensures FlagsAt(mem', t', p) == FlagsAt(mem, t, p)
    {
      OtherEntryStays(clean, t, t', q, w, p);
      FrameIsElsewhere(mem, t, frame, p);
    }
    WrittenFlags(clean, t, q, w, frame);
  }

  lemma FrameIsElsewhere(mem: seq<Page>, t: Tree, frame: nat, p: Node)
    requires frame < |mem| && frame !in t.tables.Values
    ensures FlagsAt(mem[frame := ZeroPage()], t, p) == FlagsAt(mem, t, p)
  {
    assert p.Child? && p.up in t.tables ==> t.tables[p.up] in t.tables.Values;
  }

  lemma WrittenFlags(mem: seq<Page>, t: Tree, q: Node, w: Word, frame: nat)
    requires q.Child? && q.up in t.tables && t.tables[q.up] < |mem|
    ensures FlagsAt(WriteEntry(mem, t.tables[q.up], q.index, w), t.(tables := t.tables[q := frame]), q) == w.flags
  {
    assert q.up != q by {
      assert Depth(q) == Depth(q.up) + 1;
    }
  }

  lemma FlagsStayTwice(mem1: seq<Page>, t1: Tree, mem2: seq<Page>, t2: Tree, mem3: seq<Page>, t3: Tree)
    requires TableFlagsStay(mem1, t1, mem2, t2) && TableFlagsStay(mem2, t2, mem3, t3)
    requires forall p :: p in t1.tables && p in t3.tables ==> p in t2.tables
    ensures TableFlagsStay(mem1, t1, mem3, t3)
  {
    hide FlagsAt;
  }

  lemma NewTablesTwice(mem1: seq<Page>, t1: Tree, mem2: seq<Page>, t2: Tree, mem3: seq<Page>, t3: Tree, user: bool)
    requires NewTablesAdmit(mem1, t1, mem2, t2, user) && NewTablesAdmit(mem2, t2, mem3, t3, user)
    requires TableFlagsStay(mem2, t2, mem3, t3) && forall p :: p in t1.tables ==> p in t2.tables
    ensures NewTablesAdmit(mem1, t1, mem3, t3, user)
  {
    hide FlagsAt;
  }

  lemma SameFlags(mem: seq<Page>, t: Tree)
    ensures TableFlagsStay(mem, t, mem, t) && forall user :: NewTablesAdmit(mem, t, mem, t, user)
  {
  }
}
