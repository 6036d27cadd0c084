/**
 * The data row of one logged sample: one range read plus one single-register
 * read per sparse address, in the order of the header's columns.
 *
 * The register read itself belongs to the external Modbus client; it is the
 * parameter `bus`, which answers a read on a link with the register values
 * or with the fault the client raised.
 */
module Bulk {
  import opened Results
  import opened Phaserunner
  import opened Header

  /** A "read holding registers" request: `count` registers from `start`. */
  datatype Request = Request(start: int, count: int)

  /** Whatever the Modbus client raised for a read. */
  datatype BusFault = BusFault(message: string)

  /** The external Modbus client: the reply to one request on one link. */
  type Bus = (Link, Request) -> Result<seq<int>, BusFault>

  /**
   * One element of the data row: a register value from the range read, or
   * the list a sparse read returned (Ruby's `join` flattens it later).
   */
  datatype Cell = Scalar(value: int) | Nested(values: seq<int>)

  /** The register values a cell contributes to the CSV line. */
  function Values(cell: Cell): seq<int> {
    match cell
    case Scalar(v) => [v]
    case Nested(vs) => vs
  }

  /**
   * `read_raw_range`: one request on the link the object was configured with.
   * This is where the external client is abstracted: the contract only names
   * the configuration that reaches `bus`, and proves nothing about the reply.
   */
  function ReadRawRange(bus: Bus, mb: Modbus, start: int, count: int): (r: Result<seq<int>, BusFault>)
    ensures r == bus(Link(mb.config.tty, mb.config.baudrate, mb.config.slaveId), Request(start, count))
  {
    bus(LinkOf(mb), Request(start, count))
  }

  /**
   * Only the device path, the baud rate and the slave id reach the device:
   * two objects that agree on them read the same, whatever their dictionary
   * and register options.
   */
  lemma ReadRawRangeLink(bus: Bus, mb: Modbus, other: Modbus, start: int, count: int)
    requires mb.config.tty == other.config.tty && mb.config.baudrate == other.config.baudrate
    requires mb.config.slaveId == other.config.slaveId
    ensures ReadRawRange(bus, mb, start, count) == ReadRawRange(bus, other, start, count)
  {
  }

  /** Every count-1 read of `addrs` succeeds. */
  predicate AllRead(bus: Bus, mb: Modbus, addrs: seq<int>) {
    forall i :: 0 <= i < |addrs| ==> ReadRawRange(bus, mb, addrs[i], 1).Ok?
  }

  /** `e` is the fault of the first count-1 read of `addrs`, in list order, that fails. */
  ghost predicate FirstFailure(bus: Bus, mb: Modbus, addrs: seq<int>, e: BusFault) {
    exists k :: 0 <= k < |addrs| && ReadRawRange(bus, mb, addrs[k], 1) == Err(e)
                && AllRead(bus, mb, addrs[..k])
  }

  /**
   * `read_addresses`: one count-1 read per address, in list order; result `i`
   * is the reply for `addrs[i]`; the first failing read aborts the rest.
   */
  function ReadAddresses(bus: Bus, mb: Modbus, addrs: seq<int>): (r: Result<seq<seq<int>>, BusFault>)
    ensures r.Ok? <==> AllRead(bus, mb, addrs)
    ensures r.Ok? ==> |r.value| == |addrs|
    ensures r.Ok? ==> forall i :: 0 <= i < |addrs| ==> r.value[i] == ReadRawRange(bus, mb, addrs[i], 1).value
    ensures r.Err? ==> FirstFailure(bus, mb, addrs, r.error)
  {
    if addrs == [] then Ok([])
    else
      match ReadRawRange(bus, mb, addrs[0], 1)
      case Err(e) =>
        assert addrs[..0] == [];
        Err(e)
      case Ok(v) =>
        match ReadAddresses(bus, mb, addrs[1..])
        case Err(e) =>
          ghost var k :| 0 <= k < |addrs[1..]| && ReadRawRange(bus, mb, addrs[1..][k], 1) == Err(e)
                         && AllRead(bus, mb, addrs[1..][..k]);
          assert addrs[..k + 1] == [addrs[0]] + addrs[1..][..k];
          Err(e)
        case Ok(vs) =>
          assert forall i :: 1 <= i < |addrs| ==> addrs[i] == addrs[1..][i - 1];
          Ok([v] + vs)
  }

  /**
   * The reads `read_addresses` puts on the bus, in order: a count-1 read of
   * each address in turn, and none after the first that fails.
   */
  function SparseReads(bus: Bus, mb: Modbus, addrs: seq<int>): (issued: seq<Request>)
    ensures |issued| <= |addrs|
    ensures issued == SparsePlan(addrs[..|issued|])
  {
    if addrs == [] then []
    else if ReadRawRange(bus, mb, addrs[0], 1).Err? then
      assert addrs[..1] == [addrs[0]];
      [Request(addrs[0], 1)]
    else
      var rest := SparseReads(bus, mb, addrs[1..]);
      assert addrs[..|rest| + 1] == [addrs[0]] + addrs[1..][..|rest|];
      [Request(addrs[0], 1)] + rest
  }

  /**
   * `read_addresses` issues every planned read when all of them succeed, and
   * otherwise stops right after the first that fails.
   */
  lemma {:induction false} SparseReadsStop(bus: Bus, mb: Modbus, addrs: seq<int>)
    ensures AllRead(bus, mb, addrs) ==> |SparseReads(bus, mb, addrs)| == |addrs|
    ensures !AllRead(bus, mb, addrs) ==> var n := |SparseReads(bus, mb, addrs)|;
      0 < n && ReadRawRange(bus, mb, addrs[n - 1], 1).Err? && AllRead(bus, mb, addrs[..n - 1])
  {
    if addrs != [] && ReadRawRange(bus, mb, addrs[0], 1).Ok? {
      var tail := addrs[1..];
      SparseReadsStop(bus, mb, tail);
      var m := |SparseReads(bus, mb, tail)|;
      assert |SparseReads(bus, mb, addrs)| == m + 1;
      if AllRead(bus, mb, addrs) {
        assert AllRead(bus, mb, tail) by {
          forall i | 0 <= i < |tail| ensures ReadRawRange(bus, mb, tail[i], 1).Ok? {
            assert tail[i] == addrs[i + 1];
          }
        }
      } else {
        assert !AllRead(bus, mb, tail) by {
          var i :| 0 <= i < |addrs| && ReadRawRange(bus, mb, addrs[i], 1).Err?;
          assert addrs[i] == tail[i - 1];
        }
        assert addrs[m] == tail[m - 1];
        assert addrs[..m] == [addrs[0]] + tail[..m - 1];
      }
    }
  }

  /** The reads `read_addresses` issues when none fails. */
  function SparsePlan(addrs: seq<int>): (plan: seq<Request>)
    ensures |plan| == |addrs|
    ensures forall i :: 0 <= i < |addrs| ==> plan[i] == Request(addrs[i], 1)
  {
    seq(|addrs|, i requires 0 <= i < |addrs| => Request(addrs[i], 1))
  }

  /**
   * `bulk_log_data`: the range reply followed by one cell per sparse address.
   * The range is read first; any failing read aborts the whole row.
   */
  function BulkLogData(bus: Bus, mb: Modbus, start: int, count: int, misc: seq<int>): (r: Result<seq<Cell>, BusFault>)
    ensures r.Ok? <==> ReadRawRange(bus, mb, start, count).Ok? && AllRead(bus, mb, misc)
    ensures ReadRawRange(bus, mb, start, count).Err? ==> r == Err(ReadRawRange(bus, mb, start, count).error)
    ensures ReadRawRange(bus, mb, start, count).Ok? && r.Err? ==> FirstFailure(bus, mb, misc, r.error)
    ensures r.Ok? ==> var vs := ReadRawRange(bus, mb, start, count).value;
      && |r.value| == |vs| + |misc|
      && (forall i :: 0 <= i < |vs| ==> r.value[i] == Scalar(vs[i]))
      && (forall j :: 0 <= j < |misc| ==> r.value[|vs| + j] == Nested(ReadRawRange(bus, mb, misc[j], 1).value))
  {
    match ReadRawRange(bus, mb, start, count)
    case Err(e) => Err(e)
    case Ok(vs) =>
      match ReadAddresses(bus, mb, misc)
      case Err(e) => Err(e)
      case Ok(ws) =>
        Ok(seq(|vs|, i requires 0 <= i < |vs| => Scalar(vs[i]))
           + seq(|ws|, j requires 0 <= j < |ws| => Nested(ws[j])))
  }

  /**
   * The reads `bulk_log_data` puts on the bus, in order: Ruby evaluates the
   * range read, the left operand of `+`, before any sparse read.
   */
  function BulkReads(bus: Bus, mb: Modbus, start: int, count: int, misc: seq<int>): (issued: seq<Request>)
    ensures 1 <= |issued| <= 1 + |misc|
    ensures issued[0] == Request(start, count)
    ensures ReadRawRange(bus, mb, start, count).Err? ==> |issued| == 1
  {
    [Request(start, count)]
      + if ReadRawRange(bus, mb, start, count).Ok? then SparseReads(bus, mb, misc) else []
  }

  /** The reads `bulk_log_data` issues when none fails: the range, then each sparse address. */
  function BulkPlan(start: int, count: int, misc: seq<int>): seq<Request> {
    [Request(start, count)] + SparsePlan(misc)
  }

  /** The reads `bulk_log_data` issues are a prefix of its plan. */
  lemma BulkReadsPrefix(bus: Bus, mb: Modbus, start: int, count: int, misc: seq<int>)
    ensures BulkReads(bus, mb, start, count, misc) <= BulkPlan(start, count, misc)
  {
    var issued := BulkReads(bus, mb, start, count, misc);
    var plan := BulkPlan(start, count, misc);
    if ReadRawRange(bus, mb, start, count).Ok? {
      var sparse := SparseReads(bus, mb, misc);
      assert issued == [Request(start, count)] + sparse;
      forall i | 1 <= i < |issued| ensures issued[i] == plan[i] {
        assert sparse[i - 1] == Request(misc[i - 1], 1);
      }
    }
  }

  /** A produced row issued every planned read, in plan order. */
  lemma BulkReadsComplete(bus: Bus, mb: Modbus, start: int, count: int, misc: seq<int>)
    requires BulkLogData(bus, mb, start, count, misc).Ok?
    ensures BulkReads(bus, mb, start, count, misc) == BulkPlan(start, count, misc)
  {
    SparseReadsStop(bus, mb, misc);
    assert misc[..|misc|] == misc;
  }

  /**
   * A failed row stops at the read whose fault it reports, and every read
   * before that one succeeded.
   */
  lemma BulkReadsStopAtFault(bus: Bus, mb: Modbus, start: int, count: int, misc: seq<int>)
    requires BulkLogData(bus, mb, start, count, misc).Err?
    ensures var issued := BulkReads(bus, mb, start, count, misc);
      && bus(LinkOf(mb), issued[|issued| - 1]) == Err(BulkLogData(bus, mb, start, count, misc).error)
      && forall j :: 0 <= j < |issued| - 1 ==> bus(LinkOf(mb), issued[j]).Ok?
  {
    var issued := BulkReads(bus, mb, start, count, misc);
    var r := BulkLogData(bus, mb, start, count, misc);
    if ReadRawRange(bus, mb, start, count).Ok? {
      var sparse := SparseReads(bus, mb, misc);
      var n := |sparse|;
      SparseReadsStop(bus, mb, misc);
      assert issued == [Request(start, count)] + sparse;
      var k :| 0 <= k < |misc| && ReadRawRange(bus, mb, misc[k], 1) == Err(r.error)
               && AllRead(bus, mb, misc[..k]);
      FirstFailureUnique(bus, mb, misc, k, n - 1);
      assert issued[|issued| - 1] == sparse[n - 1] == Request(misc[k], 1);
      forall j | 0 <= j < |issued| - 1 ensures bus(LinkOf(mb), issued[j]).Ok? {
        if j > 0 {
          assert issued[j] == sparse[j - 1] == Request(misc[..n - 1][j - 1], 1);
        }
      }
    }
  }

  /** At most one read of a list is the first to fail. */
  lemma FirstFailureUnique(bus: Bus, mb: Modbus, addrs: seq<int>, k: int, n: int)
    requires 0 <= k < |addrs| && 0 <= n < |addrs|
    requires ReadRawRange(bus, mb, addrs[k], 1).Err? && AllRead(bus, mb, addrs[..k])
    requires ReadRawRange(bus, mb, addrs[n], 1).Err? && AllRead(bus, mb, addrs[..n])
    ensures k == n
  {
  }

  /** The addresses a list of reads covers, read by read. */
  function Covered(requests: seq<Request>): seq<int> {
    if requests == [] then []
    else RangeAddresses(requests[0].start, requests[0].count) + Covered(requests[1..])
  }

  /** The sparse part of the plan covers exactly the sparse addresses. */
  lemma {:induction false} SparsePlanCovers(addrs: seq<int>)
    ensures Covered(SparsePlan(addrs)) == addrs
  {
    if addrs != [] {
      assert SparsePlan(addrs)[1..] == SparsePlan(addrs[1..]);
      SparsePlanCovers(addrs[1..]);
      assert RangeAddresses(addrs[0], 1) == [addrs[0]];
    }
  }

  /** The reads of a full sample cover the header's columns, in column order. */
  lemma BulkPlanCoversColumns(start: int, count: int, misc: seq<int>)
    ensures Covered(BulkPlan(start, count, misc)) == ColumnAddresses(start, count, misc)
  {
    var plan := BulkPlan(start, count, misc);
    assert plan[1..] == SparsePlan(misc);
    SparsePlanCovers(misc);
  }

  /**
   * When the range reply has one value per range address, column `i` of the
   * header and cell `i` of the row are about the same register address:
   * the label of `ColumnAddresses(...)[i]`, and the value read for it.
   */
  lemma HeaderLabelsRow(bus: Bus, mb: Modbus, start: int, count: int, misc: seq<int>)
    requires BulkLogHeader(mb, start, count, misc).Ok?
    requires BulkLogData(bus, mb, start, count, misc).Ok?
    requires |ReadRawRange(bus, mb, start, count).value| == count
    ensures var header := BulkLogHeader(mb, start, count, misc).value;
      var row := BulkLogData(bus, mb, start, count, misc).value;
      var cols := ColumnAddresses(start, count, misc);
      && |header| == |row| == |cols| == count + |misc|
      && (forall i :: 0 <= i < |cols| ==> header[i] == Label(mb.dict[cols[i]]))
      && (forall i :: 0 <= i < count ==>
            cols[i] == start + i && row[i] == Scalar(ReadRawRange(bus, mb, start, count).value[i]))
      && (forall i :: count <= i < |cols| ==> row[i] == Nested(ReadRawRange(bus, mb, cols[i], 1).value))
  {
    BulkLogHeaderLabels(mb, start, count, misc);
    RowCellsFollowColumns(bus, mb, start, count, misc);
  }

  /**
   * Cell `i` of a row whose range reply has one value per range address is
   * the value read for address `ColumnAddresses(...)[i]`.
   */
  lemma RowCellsFollowColumns(bus: Bus, mb: Modbus, start: int, count: int, misc: seq<int>)
    requires BulkLogData(bus, mb, start, count, misc).Ok?
    requires |ReadRawRange(bus, mb, start, count).value| == count
    ensures var row := BulkLogData(bus, mb, start, count, misc).value;
      var cols := ColumnAddresses(start, count, misc);
      && |row| == |cols|
      && (forall i :: 0 <= i < count ==>
            cols[i] == start + i && row[i] == Scalar(ReadRawRange(bus, mb, start, count).value[i]))
      && (forall i :: count <= i < |cols| ==> row[i] == Nested(ReadRawRange(bus, mb, cols[i], 1).value))
  {
    var cols := ColumnAddresses(start, count, misc);
    var row := BulkLogData(bus, mb, start, count, misc).value;
    var vs := ReadRawRange(bus, mb, start, count).value;
    assert |row| == count + |misc| == |cols|;
    forall i | count <= i < |cols|
      ensures row[i] == Nested(ReadRawRange(bus, mb, cols[i], 1).value)
    {
      var j := i - count;
      assert row[|vs| + j] == Nested(ReadRawRange(bus, mb, misc[j], 1).value);
      assert cols[|cols| - |misc| + j] == misc[j];
    }
  }

  /**
   * Nothing checks the length of the range reply: a device that answers
   * every read with no values yields a one-cell row under a two-column
   * header, its sparse cell sitting in the range column.
   */
  lemma ShortRangeReplyShifts(bus: Bus, mb: Modbus)
    requires forall l, q :: bus(l, q) == Ok([])
    requires 0 in mb.dict && 5 in mb.dict
    ensures BulkLogHeader(mb, 0, 1, [5]).Ok? && |BulkLogHeader(mb, 0, 1, [5]).value| == 2
    ensures BulkLogData(bus, mb, 0, 1, [5]) == Ok([Nested([])])
  {
    assert AllKnown(mb.dict, [5]);
    assert ReadRawRange(bus, mb, 0, 1) == Ok([]);
    assert ReadRawRange(bus, mb, 5, 1) == Ok([]);
    assert AllRead(bus, mb, [5]);
    var row := BulkLogData(bus, mb, 0, 1, [5]).value;
    assert |row| == 1 && row[0] == Nested([]);
    assert row == [Nested([])];
  }

  /** The values of registers `[start, start + count)` in a register file. */
  function Registers(regs: int -> int, start: int, count: nat): (vs: seq<int>)
    ensures |vs| == count
  {
    seq(count, k => regs(start + k))
  }

  /** A device that answers every read from the register file `regs`. */
  ghost predicate AnswersFrom(bus: Bus, link: Link, regs: int -> int) {
    forall q: Request {:trigger bus(link, q)} :: q.count >= 0 ==> bus(link, q) == Ok(Registers(regs, q.start, q.count))
  }

  /**
   * Against a device that answers from a register file, every cell of the
   * row holds exactly the register the same header column labels, and the
   * sparse cells are one-element lists.
   */
  lemma RowHoldsColumnRegisters(bus: Bus, mb: Modbus, regs: int -> int, start: int, count: int, misc: seq<int>)
    requires AnswersFrom(bus, LinkOf(mb), regs)
    requires count >= 0
    requires BulkLogHeader(mb, start, count, misc).Ok?
    ensures BulkLogData(bus, mb, start, count, misc).Ok?
    ensures var header := BulkLogHeader(mb, start, count, misc).value;
      var row := BulkLogData(bus, mb, start, count, misc).value;
      var cols := ColumnAddresses(start, count, misc);
      && |header| == |row| == |cols|
      && forall i :: 0 <= i < |cols| ==>
           header[i] == Label(mb.dict[cols[i]]) && Values(row[i]) == [regs(cols[i])]
  {
    var link := LinkOf(mb);
    RegisterFileReads(bus, link, regs, start, count);
    forall j | 0 <= j < |misc| ensures ReadRawRange(bus, mb, misc[j], 1) == Ok([regs(misc[j])]) {
      RegisterFileReads(bus, link, regs, misc[j], 1);
    }
    RowFromRegisterReplies(bus, mb, regs, start, count, misc);
    BulkLogHeaderLabels(mb, start, count, misc);
  }

  /** The row built from replies that all come from the register file `regs`. */
  lemma RowFromRegisterReplies(bus: Bus, mb: Modbus, regs: int -> int, start: int, count: nat, misc: seq<int>)
    requires ReadRawRange(bus, mb, start, count) == Ok(Registers(regs, start, count))
    requires forall j :: 0 <= j < |misc| ==> ReadRawRange(bus, mb, misc[j], 1) == Ok([regs(misc[j])])
    ensures BulkLogData(bus, mb, start, count, misc).Ok?
    ensures var row := BulkLogData(bus, mb, start, count, misc).value;
      var cols := ColumnAddresses(start, count, misc);
      && |row| == |cols|
      && forall i :: 0 <= i < |cols| ==> Values(row[i]) == [regs(cols[i])]
  {
    var cols := ColumnAddresses(start, count, misc);
    assert AllRead(bus, mb, misc);
    var row := BulkLogData(bus, mb, start, count, misc).value;
    var vs := Registers(regs, start, count);
    forall i | 0 <= i < |cols| ensures Values(row[i]) == [regs(cols[i])] {
      if i < count {
        assert cols[i] == start + i;
        assert row[i] == Scalar(vs[i]);
        assert vs[i] == regs(start + i);
      } else {
        assert cols[i] == misc[i - count];
        assert row[i] == Nested(ReadRawRange(bus, mb, misc[i - count], 1).value);
      }
    }
  }

  /** A register-file device answers a read with the registers it names. */
  lemma RegisterFileReads(bus: Bus, link: Link, regs: int -> int, start: int, count: nat)
    requires AnswersFrom(bus, link, regs)
    ensures bus(link, Request(start, count)) == Ok(Registers(regs, start, count))
    ensures count == 1 ==> bus(link, Request(start, count)) == Ok([regs(start)])
  {
    var q := Request(start, count);
    assert q.count >= 0;
    assert bus(link, q) == Ok(Registers(regs, q.start, q.count));
    if count == 1 {
      assert Registers(regs, start, 1) == [regs(start)];
    }
  }

  /**
   * With the shipped defaults for the register keys, the sample has the
   * range 258..269 followed by 277 and 334: fourteen columns, and a
   * fourteen-cell row when the range reply has its twelve values.
   */
  lemma DefaultSampleWidth(opts: Options, bodPath: string, load: string -> Dictionary, bus: Bus)
    requires opts.registersStartAddress.None? && opts.registersCount.None? && opts.registersMisc.None?
    ensures var mb := New(opts, bodPath, load);
      var c := mb.config;
      && ColumnAddresses(c.registersStartAddress, c.registersCount, c.registersMisc)
           == [258, 259, 260, 261, 262, 263, 264, 265, 266, 267, 268, 269, 277, 334]
      && (BulkLogHeader(mb, c.registersStartAddress, c.registersCount, c.registersMisc).Ok? ==>
            |BulkLogHeader(mb, c.registersStartAddress, c.registersCount, c.registersMisc).value| == 14)
      && (BulkLogData(bus, mb, c.registersStartAddress, c.registersCount, c.registersMisc).Ok?
          && |ReadRawRange(bus, mb, 258, 12).value| == 12 ==>
            |BulkLogData(bus, mb, c.registersStartAddress, c.registersCount, c.registersMisc).value| == 14)
  {
    var c := New(opts, bodPath, load).config;
    assert c.registersStartAddress == 258 && c.registersCount == 12 && c.registersMisc == [277, 334];
    var range := RangeAddresses(258, 12);
    assert range == [258, 259, 260, 261, 262, 263, 264, 265, 266, 267, 268, 269] by {
      assert |range| == 12;
      forall i | 0 <= i < 12 ensures range[i] == 258 + i { }
    }
  }
}
