/** elftool_dump.c: the nm listing as it runs, over the symbol list. */
module Nm {
  import opened Bytes
  import opened Layout
  import opened Lists
  import opened Elftool
  import opened ParseSpec
  import opened NmSpec

  /** The symbol list holds s, and every name and type in it can be read through x. */
  ghost predicate Holds(syms: List<SymRef>, x: Ctx, s: seq<SymRef>)
    reads syms, syms.spine
  {
    syms.Valid() && syms.Contents() == s && AllResolved(x, s)
  }

  /** sort_symbols32 / 64, the removals at the front of the list. */
  method DropFront(syms: List<SymRef>, x: Ctx, ghost s: seq<SymRef>)
    requires Holds(syms, x, s)
    modifies syms
    ensures Holds(syms, x, DropHidden(x, Tail(s)))
    ensures syms.Nodes() <= old(syms.Nodes())
  {
    hide Resolved, Hidden, ContentsOf, Linked;
    ghost var cur := Tail(s);
    syms.DelOne(AtHead, 0);
    while syms.head != null && Hidden(x, syms.head.content)
      invariant Holds(syms, x, cur)
      invariant DropHidden(x, cur) == DropHidden(x, Tail(s))
      invariant syms.Nodes() <= old(syms.Nodes())
      decreases |cur|
    {
      assert cur[0] == syms.head.content;
      assert RemoveAt(cur, 0) == cur[1..];
      syms.DelOne(AtHead, 0);
      cur := cur[1..];
    }
  }

  /** Sweeping y amounts to keeping c[..i] and sweeping c[i..]. */
  ghost predicate SweptTo(x: Ctx, y: seq<SymRef>, c: seq<SymRef>, i: nat)
    requires AllResolved(x, y) && AllResolved(x, c) && i <= |c|
  {
    var rest := Sweep(x, c[i..]);
    if rest.None? then Sweep(x, y).None? else Sweep(x, y) == Some(c[..i] + rest.value)
  }

  lemma SweptStart(x: Ctx, y: seq<SymRef>)
    requires AllResolved(x, y)
    ensures SweptTo(x, y, y, 0)
  {
    hide Resolved, Hidden;
    assert y[0..] == y;
    var r := Sweep(x, y);
    if r.Some? { assert y[..0] + r.value == r.value; }
  }

  lemma SweptEnd(x: Ctx, y: seq<SymRef>, c: seq<SymRef>, i: nat)
    requires AllResolved(x, y) && AllResolved(x, c) && |c| == i + 1 && SweptTo(x, y, c, i)
    ensures Sweep(x, y) == Some(c)
  {
    hide Resolved, Hidden;
    assert c[..i] + c[i..] == c;
  }

  /** The loop steps over a symbol it keeps. */
  lemma SweptKeep(x: Ctx, y: seq<SymRef>, c: seq<SymRef>, i: nat)
    requires AllResolved(x, y) && AllResolved(x, c) && i + 1 < |c| && SweptTo(x, y, c, i)
    requires !Hidden(x, c[i + 1])
    ensures SweptTo(x, y, c, i + 1)
  {
    hide Resolved, Hidden;
    var s := c[i..];
    assert s[1] == c[i + 1] && s[1..] == c[i + 1..];
    var t := Sweep(x, c[i + 1..]);
    if t.Some? { assert c[..i] + ([s[0]] + t.value) == c[..i + 1] + t.value; }
  }

  lemma ResolvedRemove(x: Ctx, c: seq<SymRef>, k: nat)
    requires AllResolved(x, c) && k < |c|
    ensures AllResolved(x, RemoveAt(c, k))
  {
    hide Resolved;
  }

  lemma SweepSkips(x: Ctx, s: seq<SymRef>)
    requires AllResolved(x, s) && |s| > 1 && Hidden(x, s[1])
    ensures if |s| == 2 then Sweep(x, s).None?
            else match Sweep(x, s[2..]) case None => Sweep(x, s).None? case Some(t) => Sweep(x, s) == Some([s[0]] + t)
  {
    hide Resolved, Hidden;
  }

  /** The loop deletes the last symbol and steps off the list. */
  lemma SweptOff(x: Ctx, y: seq<SymRef>, c: seq<SymRef>, i: nat)
    requires AllResolved(x, y) && AllResolved(x, c) && i + 2 == |c| && SweptTo(x, y, c, i)
    requires Hidden(x, c[i + 1])
    ensures Sweep(x, y).None?
  {
    hide Resolved, Hidden, Sweep;
    assert c[i..][1] == c[i + 1];
    SweepSkips(x, c[i..]);
  }

  /** The loop deletes a symbol and steps over the one behind it. */
  lemma SweptDelete(x: Ctx, y: seq<SymRef>, c: seq<SymRef>, i: nat)
    requires AllResolved(x, y) && AllResolved(x, c) && i + 2 < |c| && SweptTo(x, y, c, i)
    requires Hidden(x, c[i + 1])
    requires AllResolved(x, RemoveAt(c, i + 1))
    ensures SweptTo(x, y, RemoveAt(c, i + 1), i + 1)
  {
    hide Resolved, Hidden, Sweep;
    var s := c[i..];
    assert s[1] == c[i + 1] && s[2..] == c[i + 2..];
    SweepSkips(x, s);
    RemoveAtSlices(c, i + 1);
    var t := Sweep(x, s[2..]);
    if t.Some? { assert c[..i] + ([s[0]] + t.value) == c[..i + 1] + t.value; }
  }

  /** ft_lstdelone(&head->next, default_del) inside the sweep. */
  method DeleteBehind(syms: List<SymRef>, head: Node<SymRef>, x: Ctx, ghost c: seq<SymRef>, ghost i: nat)
    requires Holds(syms, x, c) && i + 1 < |c| && head == syms.spine[i]
    modifies syms, head
    ensures AllResolved(x, RemoveAt(c, i + 1)) && Holds(syms, x, RemoveAt(c, i + 1))
    ensures syms.Nodes() <= old(syms.Nodes())
    ensures head == syms.spine[i] && head.next == NodeAt(syms.spine, i + 1)
  {
    hide Resolved;
    ResolvedRemove(x, c, i + 1);
    syms.DelOne(AtNext(head), i + 1);
  }

  /** sort_symbols32 / 64, the sweep over the rest of a nonempty list. */
  method SweepRest(syms: List<SymRef>, x: Ctx, ghost y: seq<SymRef>) returns (r: Code)
    requires Holds(syms, x, y) && y != []
    modifies syms, syms.Nodes()
    ensures r == if Sweep(x, y).Some? then Success else Undefined
    ensures r == Success ==> Holds(syms, x, Sweep(x, y).value)
    ensures syms.Nodes() <= old(syms.Nodes())
  {
    hide Resolved, Hidden, Sweep, SweptTo, ContentsOf, Linked;
    var head := syms.head;
    ghost var c, i := y, 0;
    SweptStart(x, y);
    while head.next != null
      invariant Holds(syms, x, c) && i < |c| && head == syms.spine[i]
      invariant SweptTo(x, y, c, i)
      invariant syms.Nodes() <= old(syms.Nodes())
      decreases |c| - i
    {
      assert head in syms.Nodes();
      NextNode(syms, i);
      if Hidden(x, head.next.content) {
        DeleteBehind(syms, head, x, c, i);
        if head.next == null {
          SweptOff(x, y, c, i);
          return Undefined;   // head becomes null and the loop test follows it
        }
        head := head.next;
        SweptDelete(x, y, c, i);
        c := RemoveAt(c, i + 1);
      } else {
        SweptKeep(x, y, c, i);
        head := head.next;
      }
      i := i + 1;
    }
    NextNode(syms, i);
    SweptEnd(x, y, c, i);
    r := Success;
  }

  /** One round's search for the lowest name; sel comes in and goes out as indexSelected. */
  method ScanRound(syms: List<SymRef>, x: Ctx, stale: nat, ghost s: seq<SymRef>) returns (sel: nat)
    requires Holds(syms, x, s)
    ensures sel == ScanTo(x, s, |s|, stale).sel
  {
    hide Resolved, Key;
    sel := stale;
    var min := SENTINEL;
    var head := syms.head;
    var index := 0;
    while head != null
      invariant index <= |s| && head == NodeAt(syms.spine, index)
      invariant Scan(min, sel) == ScanTo(x, s, index, stale)
      decreases |s| - index
    {
      assert head.content == s[index];
      var cur := Key(x, head.content);
      if StrcmpNm(min, cur) > 0 {
        min := cur;
        sel := index;
      }
      index := index + 1;
      head := head.next;
    }
  }

  /** Unlink the selected node; null when the stale index points behind the list. */
  method TakeSelected(syms: List<SymRef>, x: Ctx, sel: nat, ghost s: seq<SymRef>) returns (n: Node?<SymRef>)
    requires Holds(syms, x, s) && s != []
    modifies syms, syms.Nodes()
    ensures n == null <==> sel >= |s|
    ensures n == null ==> Holds(syms, x, s) && syms.spine == old(syms.spine)
    ensures n != null ==> fresh(n) && n.next == null && n.content == s[sel] && Holds(syms, x, RemoveAt(s, sel))
    ensures syms.Nodes() <= old(syms.Nodes())
  {
    hide Resolved;
    n := null;
    if sel == 0 {
      n := new Node(syms.head.content);
      syms.DelOne(AtHead, 0);
    } else {
      var index := 0;
      var head := syms.head;
      while head != null && index != sel - 1
        invariant index <= |s| && index <= sel - 1 && head == NodeAt(syms.spine, index)
        decreases |s| - index
      {
        head := head.next;
        index := index + 1;
      }
      if head != null && head.next != null {
        assert head.next == syms.spine[sel];
        n := new Node(head.next.content);
        syms.DelOne(AtNext(head), sel);
      }
    }
  }

  lemma RoundsStep(x: Ctx, s: seq<SymRef>, stale: nat, done: seq<SymRef>)
    requires AllResolved(x, s) && s != []
    ensures var sel := ScanTo(x, s, |s|, stale).sel;
            if sel < |s| then
              AllResolved(x, RemoveAt(s, sel))
              && done + Rounds(x, s, stale) == done + [s[sel]] + Rounds(x, RemoveAt(s, sel), sel)
            else AllResolved(x, s[1..]) && Rounds(x, s, stale) == Rounds(x, s[1..], sel)
  {
    hide Resolved, Key, ScanTo;
  }

  lemma RoundsEnd(x: Ctx, s: seq<SymRef>, stale: nat)
    requires s == []
    ensures Rounds(x, s, stale) == []
  {
  }

  /** One round: the selected symbol moves to the new list; a stale selection drops the head instead. */
  method OneRound(syms: List<SymRef>, newList: List<SymRef>, x: Ctx, stale: nat,
                  ghost s: seq<SymRef>, ghost done: seq<SymRef>)
    returns (sel: nat)
    requires Holds(syms, x, s) && s != [] && newList.Valid() && newList.Contents() == done
    requires syms != newList && syms.Nodes() !! newList.Nodes()
    modifies syms, syms.Nodes(), newList, newList.Nodes()
    ensures sel == ScanTo(x, s, |s|, stale).sel
    ensures newList.Valid() && syms.Nodes() <= old(syms.Nodes()) && fresh(newList.Nodes() - old(newList.Nodes()))
    ensures if sel < |s| then Holds(syms, x, RemoveAt(s, sel)) && newList.Contents() == done + [s[sel]]
            else Holds(syms, x, s[1..]) && newList.Contents() == done
  {
    hide Resolved, Key, ScanTo, ContentsOf, Linked;
    sel := ScanRound(syms, x, stale, s);
    var n := TakeSelected(syms, x, sel, s);
    if n != null {
      assert newList.spine != [] ==> newList.spine[|newList.spine| - 1] in newList.Nodes();
      newList.Push(n);
    } else {
      assert RemoveAt(s, 0) == s[1..];
      syms.DelOne(AtHead, 0);
    }
  }

  /** sort_symbols32 / 64, the rounds: bin->syms is emptied into a new list, which then takes its place. */
  method SortRounds(syms: List<SymRef>, x: Ctx, ghost s: seq<SymRef>)
    requires Holds(syms, x, s)
    modifies syms, syms.Nodes()
    ensures syms.Valid() && syms.Contents() == Rounds(x, s, 0)
  {
    hide Resolved, Key, ScanTo, ContentsOf, Linked, Rounds;
    var newList := new List<SymRef>();
    var sel: nat := 0;
    ghost var cur, done := s, [];
    assert done + Rounds(x, s, 0) == Rounds(x, s, 0);
    while syms.head != null
      invariant Holds(syms, x, cur) && newList.Valid() && newList.Contents() == done
      invariant fresh(newList) && fresh(newList.Nodes())
      invariant syms.Nodes() <= old(syms.Nodes())
      invariant Rounds(x, s, 0) == done + Rounds(x, cur, sel)
      decreases |cur|
    {
      RoundsStep(x, cur, sel, done);
      sel := OneRound(syms, newList, x, sel, cur, done);
      done := if sel < |cur| then done + [cur[sel]] else done;
      cur := if sel < |cur| then RemoveAt(cur, sel) else cur[1..];
    }
    RoundsEnd(x, cur, sel);
    syms.head := newList.head;
    syms.spine := newList.spine;
  }

  /** ft_lstiter with elftool_dump_nm32 / 64: the listed symbols from a node on. */
  method IterNm(node: Node<SymRef>, x: Ctx, ghost syms: List<SymRef>, ghost i: nat) returns (out: seq<SymRef>)
    requires syms.Valid() && i < |syms.spine| && node == syms.spine[i]
    requires AllResolved(x, syms.Contents())
    ensures out == Visible(x, syms.Contents()[i..])
    decreases |syms.spine| - i
  {
    hide Resolved, Hidden;
    ghost var s := syms.Contents()[i..];
    assert s[0] == node.content && s[1..] == syms.Contents()[i + 1..];
    var next := node.next;
    out := if Hidden(x, node.content) then [] else [node.content];
    if next != null {
      var rest := IterNm(next, x, syms, i + 1);
      out := out + rest;
    }
  }

  /** sort_symbols32 / 64. */
  method SortSymbols(syms: List<SymRef>, x: Ctx, ghost s: seq<SymRef>) returns (r: Code)
    requires Holds(syms, x, s)
    modifies syms, syms.Nodes()
    ensures r == if SortedList(x, s).Some? then Success else Undefined
    ensures r == Success ==> syms.Valid() && Some(syms.Contents()) == SortedList(x, s)
  {
    hide Resolved, Hidden, Rounds, DropHidden, ContentsOf, Linked;
    DropFront(syms, x, s);
    ghost var z := DropHidden(x, Tail(s));
    r := Success;
    if syms.head != null {
      r := SweepRest(syms, x, z);
      z := if r == Success then Sweep(x, z).value else z;
    }
    if r == Success {
      SortRounds(syms, x, z);
    }
  }

  /** What the listing reads of a binary. */
  function CtxOf(bin: Elf): Ctx
    requires bin.strtab.Some? && bin.strtab.value.sh_offset + bin.Cls().ShdrSize() <= bin.mem.Length
    reads bin, bin.mem
  {
    Ctx(bin.Cls(), bin.mem[..], ShdrAt(bin.Cls(), bin.mem[..], bin.strtab.value.sh_offset).offset)
  }

  /** elftool_dump_nm on the symbol list of a parsed binary: the symbols printed, in order. */
  method DumpNm(bin: Elf, ghost s: seq<SymRef>) returns (r: Code, out: seq<SymRef>)
    requires bin.Valid() && bin.syms.Contents() == s
    requires s != [] ==>
               && bin.strtab.Some? && bin.strtab.value.sh_offset + bin.Cls().ShdrSize() <= bin.length
               && AllResolved(CtxOf(bin), s)
    modifies bin.syms, bin.syms.Nodes()
    ensures s == [] ==> r == Success && out == [] && bin.syms.Valid() && bin.syms.Contents() == []
    ensures s != [] ==>
              var x := CtxOf(bin);
              && r == (if NmOutput(x, s).Some? then Success else Undefined)
              && (r == Success ==>
                    out == NmOutput(x, s).value && bin.syms.Valid() && Some(bin.syms.Contents()) == SortedList(x, s))
  {
    hide Resolved, Hidden, ShdrAt, Rounds, Sweep, DropHidden, ContentsOf, Linked;
    out := [];
    if bin.syms.head == null {
      return Success, [];
    }
    var x := CtxOf(bin);
    r := SortSymbols(bin.syms, x, s);
    if r == Success {
      ghost var z := Sweep(x, DropHidden(x, Tail(s))).value;
      RoundsResolved(x, z, 0);
      if bin.syms.head != null {
        out := IterNm(bin.syms.head, x, bin.syms, 0);
        assert bin.syms.Contents()[0..] == bin.syms.Contents();
      }
    }
  }
}
