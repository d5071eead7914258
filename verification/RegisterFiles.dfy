/** The two register files: flip-flops (core/ariane_regfile_ff.sv), and one RAM bank per write port with a
    table of last writers (core/ariane_regfile_fpga.sv). */
module RegisterFiles {

  import opened Options

  /** A write port in one cycle. */
  datatype Write<T> = Write(we: bool, addr: nat, data: T)

  /** The ports of one cycle, lowest first. */
  predicate Addressable<T>(ws: seq<Write<T>>, words: nat) {
    forall j | 0 <= j < |ws| :: ws[j].addr < words
  }

  predicate Hits<T>(w: Write<T>, i: nat) {
    w.we && w.addr == i
  }

  /** The highest port that writes register i, or none. */
  function LastWriter<T>(ws: seq<Write<T>>, i: nat): (w: int)
    ensures -1 <= w < |ws|
    ensures w >= 0 ==> Hits(ws[w], i)
    ensures forall j | w < j < |ws| :: !Hits(ws[j], i)
  {
    if ws == [] then -1
    else if Hits(ws[|ws| - 1], i) then |ws| - 1
    else LastWriter(ws[..|ws| - 1], i)
  }

  // ---------------------------------------------------------------- flip-flops

  /** Register i after the first n ports of a cycle. */
  function FlopAfter<T>(held: T, ws: seq<Write<T>>, i: nat, zero: T, hardwired: bool): T {
    if hardwired && i == 0 && ws != [] then zero
    else if LastWriter(ws, i) >= 0 then ws[LastWriter(ws, i)].data
    else held
  }

  function FlopsNext<T>(mem: seq<T>, ws: seq<Write<T>>, zero: T, hardwired: bool): (next: seq<T>)
    ensures |next| == |mem|
  {
    seq(|mem|, i requires 0 <= i < |mem| => FlopAfter(mem[i], ws, i, zero, hardwired))
  }

  class FlopFile<T> {
    const zero: T
    const hardwired: bool
    const mem: array<T>
    ghost var history: seq<seq<Write<T>>>

    /** The registers are what the writes since reset make of them. */
    ghost predicate Valid()
      reads this, mem
    {
      mem.Length > 0 && mem[..] == FlopsRun(mem.Length, history, zero, hardwired)
    }

    constructor (words: nat, zero: T, hardwired: bool)
      requires words > 0
      ensures Valid() && fresh(mem) && mem.Length == words && history == []
      ensures this.zero == zero && this.hardwired == hardwired
    {
      this.zero, this.hardwired, history := zero, hardwired, [];
      mem := new T[words](_ => zero);
      new;
      assert forall i | 0 <= i < words :: mem[i] == zero;
    }

    method Clock(ws: seq<Write<T>>)
      requires Valid()
      modifies this, mem
      ensures Valid() && history == old(history) + [ws]
      ensures mem[..] == FlopsNext(old(mem[..]), ws, zero, hardwired)
    {
      WritePorts(ws);
      history := history + [ws];
      assert history[..|history| - 1] == old(history);
    }

    /** The nested loops over ports and registers. */
    method WritePorts(ws: seq<Write<T>>)
      requires mem.Length > 0
      modifies mem
      ensures mem[..] == FlopsNext(old(mem[..]), ws, zero, hardwired)
    {
      var j := 0;
      while j < |ws|
        invariant 0 <= j <= |ws|
        invariant forall i | 0 <= i < mem.Length :: mem[i] == FlopAfter(old(mem[i]), ws[..j], i, zero, hardwired)
      {
        var i := 0;
        assert ws[..j + 1][..j] == ws[..j];
        while i < mem.Length
          invariant 0 <= i <= mem.Length
          invariant forall k | 0 <= k < i :: mem[k] == if Hits(ws[j], k) then ws[j].data
                      else FlopAfter(old(mem[k]), ws[..j], k, zero, hardwired)
          invariant forall k | i <= k < mem.Length :: mem[k] == FlopAfter(old(mem[k]), ws[..j], k, zero, hardwired)
        {
          if ws[j].addr == i && ws[j].we {
            mem[i] := ws[j].data;
          }
          i := i + 1;
        }
        if hardwired {
          mem[0] := zero;
        }
        j := j + 1;
      }
      assert ws[..|ws|] == ws;
    }

    /** A register reads as its latest write, and as zero before the first or when hardwired. */
    method Read(i: nat) returns (r: T)
      requires Valid() && i < mem.Length
      ensures r == if (hardwired && i == 0) || Latest(history, i).None? then zero else Latest(history, i).value
    {
      r := mem[i];
      FlopsHoldLatest(mem.Length, history, zero, hardwired, i);
      assert r == mem[..][i];
    }
  }

  // ---------------------------------------------------------------- banks

  /** One bank per write port, and for every register the bank that holds its value. */
  datatype Banks<T> = Banks(mem: seq<seq<T>>, sel: seq<nat>)

  ghost predicate Shaped<T>(b: Banks<T>, ports: nat, words: nat) {
    && |b.mem| == ports && |b.sel| == words
    && (forall j | 0 <= j < ports :: |b.mem[j]| == words)
    && (forall i | 0 <= i < words :: b.sel[i] < ports)
  }

  /** The banks with the given contents, and a table of zeros. */
  function PowerUp<T>(words: nat, ports: nat, contents: (nat, nat) -> T): (b: Banks<T>)
    ensures |b.mem| == ports && |b.sel| == words && forall i | 0 <= i < words :: b.sel[i] == 0
    ensures forall j | 0 <= j < ports :: |b.mem[j]| == words
    ensures forall j, i | 0 <= j < ports && 0 <= i < words :: b.mem[j][i] == contents(j, i)
  {
    Banks(seq(ports, j requires 0 <= j < ports => seq(words, i requires 0 <= i < words => contents(j, i))), seq(words, _ => 0))
  }

  function BankNext<T>(bank: seq<T>, w: Write<T>): (next: seq<T>)
    requires w.addr < |bank|
    ensures |next| == |bank|
  {
    if w.we then bank[w.addr := w.data] else bank
  }

  function SelectNext<T>(sel: nat, ws: seq<Write<T>>, i: nat): nat {
    if LastWriter(ws, i) >= 0 then LastWriter(ws, i) else sel
  }

  ghost function BanksNext<T>(b: Banks<T>, ws: seq<Write<T>>, words: nat): (next: Banks<T>)
    requires Shaped(b, |ws|, words) && Addressable(ws, words)
    ensures Shaped(next, |ws|, words)
  {
    Banks(seq(|ws|, j requires 0 <= j < |ws| => BankNext(b.mem[j], ws[j])),
          seq(words, i requires 0 <= i < words => SelectNext(b.sel[i], ws, i)))
  }

  function BankRead<T>(b: Banks<T>, i: nat, zero: T, hardwired: bool): T
    requires i < |b.sel| && b.sel[i] < |b.mem| && i < |b.mem[b.sel[i]]|
  {
    if hardwired && i == 0 then zero else b.mem[b.sel[i]][i]
  }

  class BankedFile<T> {
    const zero: T
    const hardwired: bool
    const ports: nat
    const words: nat
    const mem: array2<T>
    const sel: array<nat>
    ghost const start: Banks<T>
    ghost var history: seq<seq<Write<T>>>

    ghost predicate Shape()
      reads mem, sel
    {
      && mem.Length0 == ports > 0 && mem.Length1 == words && sel.Length == words
      && forall i | 0 <= i < words :: sel[i] < ports
    }

    /** The banks are what the writes since reset make of the contents they came up with. */
    ghost predicate Valid()
      reads this, mem, sel
    {
      && Shape()
      && Shaped(start, ports, words) && History(history, ports, words)
      && (forall i | 0 <= i < words :: start.sel[i] == 0)
      && Snapshot() == BanksRun(start, history, ports, words)
    }

    ghost function Bank(j: nat): seq<T>
      requires j < mem.Length0
      reads mem
    {
      seq(mem.Length1, i requires 0 <= i < mem.Length1 reads mem => mem[j, i])
    }

    ghost function Snapshot(): (b: Banks<T>)
      requires Shape()
      reads mem, sel
      ensures Shaped(b, ports, words)
    {
      Banks(seq(ports, j requires 0 <= j < ports reads mem, sel requires Shape() => Bank(j)), sel[..])
    }

    /** The banks come up with arbitrary contents; only the table is reset. */
    constructor (words: nat, ports: nat, zero: T, hardwired: bool, contents: (nat, nat) -> T)
      requires ports > 0
      ensures this.words == words && this.ports == ports && this.zero == zero && this.hardwired == hardwired
      ensures Valid() && fresh(mem) && fresh(sel) && history == []
      ensures forall j, i | 0 <= j < ports && 0 <= i < words :: start.mem[j][i] == contents(j, i)
    {
      this.words, this.ports, this.zero, this.hardwired, history := words, ports, zero, hardwired, [];
      mem := new T[ports, words]((_, _) => zero);
      sel := new nat[words](_ => 0);
      start := PowerUp(words, ports, contents);
      new;
      Fill(contents);
      forall j | 0 <= j < ports ensures Bank(j) == start.mem[j] {
      }
      assert sel[..] == start.sel;
    }

    /** The initial block. */
    method Fill(contents: (nat, nat) -> T)
      modifies mem
      ensures forall k, i | 0 <= k < mem.Length0 && 0 <= i < mem.Length1 :: mem[k, i] == contents(k, i)
    {
      for j := 0 to mem.Length0
        invariant forall k, i | 0 <= k < j && 0 <= i < mem.Length1 :: mem[k, i] == contents(k, i)
      {
        for i := 0 to mem.Length1
          invariant forall k, l | 0 <= k < j && 0 <= l < mem.Length1 :: mem[k, l] == contents(k, l)
          invariant forall k | 0 <= k < i :: mem[j, k] == contents(j, k)
        {
          mem[j, i] := contents(j, i);
        }
      }
    }

    method Clock(ws: seq<Write<T>>)
      requires Valid() && |ws| == ports && Addressable(ws, words)
      modifies this, mem, sel
      ensures Valid() && history == old(history) + [ws]
      ensures Snapshot() == BanksNext(old(Snapshot()), ws, words)
    {
      ghost var before, after := history, history + [ws];
      WriteBanks(ws);
      HistorySnoc(before, ws, ports, words);
      BanksRunSnoc(start, before, ws, ports, words);
      assert Snapshot() == BanksRun(start, after, ports, words);
      history := after;
    }

    /** The block selector flops and the RAM blocks. */
    method WriteBanks(ws: seq<Write<T>>)
      requires Shape() && |ws| == ports && Addressable(ws, words)
      modifies mem, sel
      ensures Shape() && Snapshot() == BanksNext(old(Snapshot()), ws, words)
    {
      UpdateSelector(ws);
      var j := 0;
      while j < ports
        invariant 0 <= j <= ports && Shape()
        invariant forall k, i | 0 <= k < j && 0 <= i < words :: mem[k, i] == if Hits(ws[k], i) then ws[k].data else old(mem[k, i])
        invariant forall k, i | j <= k < ports && 0 <= i < words :: mem[k, i] == old(mem[k, i])
        modifies mem
      {
        // the guard ~waddr != 0 is evaluated at 32 bits and never fails
        if ws[j].we {
          mem[j, ws[j].addr] := ws[j].data;
        }
        j := j + 1;
      }
      assert forall k | 0 <= k < ports :: Bank(k) == BankNext(old(Bank(k)), ws[k]);
    }

    /** The loop over registers and ports that finds the highest writer. */
    method UpdateSelector(ws: seq<Write<T>>)
      requires Shape() && |ws| == ports
      modifies sel
      ensures Shape() && sel[..] == seq(words, i requires 0 <= i < words => SelectNext(old(sel[i]), ws, i))
    {
      var i := 0;
      while i < words
        invariant 0 <= i <= words && Shape()
        invariant forall k | 0 <= k < i :: sel[k] == SelectNext(old(sel[k]), ws, k)
        invariant forall k | i <= k < words :: sel[k] == old(sel[k])
      {
        var j := 0;
        while j < ports
          invariant 0 <= j <= ports && Shape()
          invariant sel[i] == SelectNext(old(sel[i]), ws[..j], i)
          invariant forall k | 0 <= k < words && k != i :: sel[k] == if k < i then SelectNext(old(sel[k]), ws, k) else old(sel[k])
        {
          assert ws[..j + 1][..j] == ws[..j];
          if ws[j].addr == i && ws[j].we {
            sel[i] := j;
          }
          j := j + 1;
        }
        assert ws[..ports] == ws;
        i := i + 1;
      }
    }

    /** A register reads as its latest write, and before the first as what its cell of bank 0 came up
        with; register 0 as zero when hardwired. */
    method Read(i: nat) returns (r: T)
      requires Valid() && i < words
      ensures r == if hardwired && i == 0 then zero
                   else if Latest(history, i).Some? then Latest(history, i).value else start.mem[0][i]
    {
      if hardwired && i == 0 {
        r := zero;
      } else {
        r := mem[sel[i], i];
        BanksHoldLatest(start, history, ports, words, i);
        assert r == Bank(sel[i])[i] == Snapshot().mem[sel[i]][i];
      }
    }
  }

  // ---------------------------------------------------------------- whole histories

  /** A history: the ports of every cycle since reset. */
  ghost predicate History<T>(h: seq<seq<Write<T>>>, ports: nat, words: nat) {
    forall t | 0 <= t < |h| :: |h[t]| == ports && Addressable(h[t], words)
  }

  function FlopsRun<T>(words: nat, h: seq<seq<Write<T>>>, zero: T, hardwired: bool): (mem: seq<T>)
    ensures |mem| == words
  {
    if h == [] then seq(words, _ => zero)
    else FlopsNext(FlopsRun(words, h[..|h| - 1], zero, hardwired), h[|h| - 1], zero, hardwired)
  }

  ghost function BanksRun<T>(start: Banks<T>, h: seq<seq<Write<T>>>, ports: nat, words: nat): (b: Banks<T>)
    requires Shaped(start, ports, words) && History(h, ports, words)
    ensures Shaped(b, ports, words)
  {
    if h == [] then start
    else BanksNext(BanksRun(start, h[..|h| - 1], ports, words), h[|h| - 1], words)
  }

  lemma HistorySnoc<T>(h: seq<seq<Write<T>>>, ws: seq<Write<T>>, ports: nat, words: nat)
    requires History(h, ports, words) && |ws| == ports && Addressable(ws, words)
    ensures History(h + [ws], ports, words) && (h + [ws])[..|h|] == h
  {
  }

  lemma BanksRunSnoc<T>(start: Banks<T>, h: seq<seq<Write<T>>>, ws: seq<Write<T>>, ports: nat, words: nat)
    requires Shaped(start, ports, words) && History(h, ports, words) && |ws| == ports && Addressable(ws, words)
    requires History(h + [ws], ports, words)
    ensures BanksRun(start, h + [ws], ports, words) == BanksNext(BanksRun(start, h, ports, words), ws, words)
  {
    assert (h + [ws])[..|h|] == h;
  }

  /** The data of the latest write to register i: the last cycle with one, and in it the highest port. */
  function Latest<T>(h: seq<seq<Write<T>>>, i: nat): Option<T> {
    if h == [] then None
    else
      var w := LastWriter(h[|h| - 1], i);
      if w >= 0 then Some(h[|h| - 1][w].data) else Latest(h[..|h| - 1], i)
  }

  /** The flip-flops hold the latest write, and zero before the first. */
  lemma {:induction false} FlopsHoldLatest<T>(words: nat, h: seq<seq<Write<T>>>, zero: T, hardwired: bool, i: nat)
    requires i < words
    ensures FlopsRun(words, h, zero, hardwired)[i]
            == if (hardwired && i == 0) || Latest(h, i).None? then zero else Latest(h, i).value
  {
    if h != [] {
      FlopsHoldLatest(words, h[..|h| - 1], zero, hardwired, i);
    }
  }

  /** The selected bank holds the latest write, and before the first the selection is still bank 0,
      whose contents nobody has touched at that register. */
  lemma {:induction false} BanksHoldLatest<T>(start: Banks<T>, h: seq<seq<Write<T>>>, ports: nat, words: nat, i: nat)
    requires Shaped(start, ports, words) && History(h, ports, words) && i < words && start.sel[i] == 0
    ensures var b := BanksRun(start, h, ports, words);
            b.mem[b.sel[i]][i] == if Latest(h, i).None? then start.mem[0][i] else Latest(h, i).value
    ensures Latest(h, i).None? ==> BanksRun(start, h, ports, words).sel[i] == 0
  {
    if h != [] {
      var init, ws := h[..|h| - 1], h[|h| - 1];
      BanksHoldLatest(start, init, ports, words, i);
      var b := BanksRun(start, init, ports, words);
      var s := SelectNext(b.sel[i], ws, i);
      assert BanksNext(b, ws, words).mem[s] == BankNext(b.mem[s], ws[s]);
    }
  }

  /** For every history both files read the same at a register exactly when it is the hardwired zero,
      was written since reset, or its cell of bank 0 came up as zero. */
  lemma SameReads<T>(start: Banks<T>, h: seq<seq<Write<T>>>, ports: nat, words: nat, zero: T, hardwired: bool, i: nat)
    requires Shaped(start, ports, words) && History(h, ports, words) && i < words && start.sel[i] == 0
    ensures BankRead(BanksRun(start, h, ports, words), i, zero, hardwired) == FlopsRun(words, h, zero, hardwired)[i]
            <==> (hardwired && i == 0) || Latest(h, i).Some? || start.mem[0][i] == zero
  {
    FlopsHoldLatest(words, h, zero, hardwired, i);
    BanksHoldLatest(start, h, ports, words, i);
  }

  /** A register counts as written exactly when some port of some cycle hit it. */
  lemma {:induction false} LatestIffWritten<T>(h: seq<seq<Write<T>>>, i: nat)
    ensures Latest(h, i).Some? <==> exists t, j | 0 <= t < |h| && 0 <= j < |h[t]| :: Hits(h[t][j], i)
  {
    if h != [] {
      var n := |h| - 1;
      LatestIffWritten(h[..n], i);
      var w := LastWriter(h[n], i);
      if w >= 0 {
        assert Hits(h[n][w], i);
      } else if t, j :| 0 <= t < |h| && 0 <= j < |h[t]| && Hits(h[t][j], i) {
        assert t < n && Hits(h[..n][t][j], i);
      }
    }
  }
}
