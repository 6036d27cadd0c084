/**
 * The CSV column labels of one logged sample: a label `"name (units)"` per
 * register address, for a half-open address range followed by a list of
 * sparse addresses.
 */
module Header {
  import opened Results
  import opened Phaserunner

  /** The error Ruby raises when an address is not a key of the dictionary. */
  datatype HeaderError = UnknownRegister(address: int)

  /** The column label of one register. */
  function Label(meta: RegisterMeta): string {
    meta.name + " (" + meta.units + ")"
  }

  /**
   * With the units fixed the label determines the register name, and with
   * the name fixed it determines the units.
   */
  lemma LabelDetermines(a: RegisterMeta, b: RegisterMeta)
    requires a.units == b.units || a.name == b.name
    ensures Label(a) == Label(b) <==> a == b
  {
    if Label(a) == Label(b) {
      var la, lb := Label(a), Label(b);
      assert |a.name| + |a.units| == |b.name| + |b.units|;
      if a.units == b.units {
        assert a.name == la[..|a.name|];
        assert b.name == lb[..|b.name|];
      }
      if a.name == b.name {
        var n := |a.name| + 2;
        assert la[n..] == a.units + ")" && lb[n..] == b.units + ")";
        assert a.units == (a.units + ")")[..|a.units|];
        assert b.units == (b.units + ")")[..|b.units|];
      }
    }
  }

  /** Every address of `addrs` is a key of `dict`. */
  predicate AllKnown(dict: Dictionary, addrs: seq<int>) {
    forall i :: 0 <= i < |addrs| ==> addrs[i] in dict
  }

  /** `a` is the first address of `addrs`, in list order, that `dict` does not know. */
  ghost predicate FirstUnknown(dict: Dictionary, addrs: seq<int>, a: int) {
    exists k :: 0 <= k < |addrs| && addrs[k] == a && a !in dict && AllKnown(dict, addrs[..k])
  }

  /** The addresses of the half-open range `[start, start + count)`, ascending. */
  function RangeAddresses(start: int, count: int): (r: seq<int>)
    ensures |r| == if count > 0 then count else 0
    ensures forall i :: 0 <= i < |r| ==> r[i] == start + i
    ensures forall i, j :: 0 <= i < j < |r| ==> r[i] < r[j]
    decreases count
  {
    if count <= 0 then [] else RangeAddresses(start, count - 1) + [start + count - 1]
  }

  /**
   * `bulk_addresses_header`: one label per address, in the order given,
   * duplicates included; the first address missing from the dictionary
   * aborts the whole header.
   */
  function BulkAddressesHeader(mb: Modbus, addrs: seq<int>): (r: Result<seq<string>, HeaderError>)
    ensures r.Ok? <==> AllKnown(mb.dict, addrs)
    ensures r.Ok? ==> |r.value| == |addrs|
    ensures r.Ok? ==> forall i :: 0 <= i < |addrs| ==> r.value[i] == Label(mb.dict[addrs[i]])
    ensures r.Err? ==> FirstUnknown(mb.dict, addrs, r.error.address)
  {
    if addrs == [] then Ok([])
    else if addrs[0] !in mb.dict then
      assert addrs[..0] == [];
      Err(UnknownRegister(addrs[0]))
    else
      match BulkAddressesHeader(mb, addrs[1..])
      case Err(e) =>
        ghost var k :| 0 <= k < |addrs[1..]| && addrs[1..][k] == e.address && e.address !in mb.dict
                       && AllKnown(mb.dict, addrs[1..][..k]);
        assert addrs[..k + 1] == [addrs[0]] + addrs[1..][..k];
        Err(e)
      case Ok(rest) =>
        assert forall i :: 1 <= i < |addrs| ==> addrs[i] == addrs[1..][i - 1];
        Ok([Label(mb.dict[addrs[0]])] + rest)
  }

  /**
   * `range_address_header`: one label per address of `[start, start + count)`
   * in ascending order; an empty header when `count <= 0`.
   */
  function RangeAddressHeader(mb: Modbus, start: int, count: int): (r: Result<seq<string>, HeaderError>)
    ensures r.Ok? <==> forall a :: start <= a < start + count ==> a in mb.dict
    ensures r.Ok? ==> |r.value| == if count > 0 then count else 0
    ensures r.Ok? ==> forall i :: 0 <= i < |r.value| ==> r.value[i] == Label(mb.dict[start + i])
    ensures r.Err? ==> var a := r.error.address;
      start <= a < start + count && a !in mb.dict
      && forall b :: start <= b < a ==> b in mb.dict
  {
    RangeKnown(mb.dict, start, count);
    var r := BulkAddressesHeader(mb, RangeAddresses(start, count));
    if r.Err? then RangeFirstUnknown(mb.dict, start, count, r.error.address); r else r
  }

  /** Every range address is known exactly when every address of the interval is. */
  lemma RangeKnown(dict: Dictionary, start: int, count: int)
    ensures AllKnown(dict, RangeAddresses(start, count))
        <==> forall a :: start <= a < start + count ==> a in dict
  {
    var addrs := RangeAddresses(start, count);
    if AllKnown(dict, addrs) {
      forall a | start <= a < start + count ensures a in dict {
        assert addrs[a - start] == a;
      }
    }
  }

  /** The first unknown range address is the lowest unknown address of the interval. */
  lemma RangeFirstUnknown(dict: Dictionary, start: int, count: int, a: int)
    requires FirstUnknown(dict, RangeAddresses(start, count), a)
    ensures start <= a < start + count && a !in dict
    ensures forall b :: start <= b < a ==> b in dict
  {
    var addrs := RangeAddresses(start, count);
    var k :| 0 <= k < |addrs| && addrs[k] == a && a !in dict && AllKnown(dict, addrs[..k]);
    forall b | start <= b < a ensures b in dict {
      assert addrs[..k][b - start] == b;
    }
  }

  /**
   * The column order of a bulk sample: the range addresses ascending, then
   * the sparse addresses in the order given.
   */
  function ColumnAddresses(start: int, count: int, misc: seq<int>): (r: seq<int>)
    ensures |r| == (if count > 0 then count else 0) + |misc|
    ensures forall i :: 0 <= i < count ==> r[i] == start + i
    ensures forall j :: 0 <= j < |misc| ==> r[|r| - |misc| + j] == misc[j]
  {
    RangeAddresses(start, count) + misc
  }

  /** `bulk_log_header`: the range header followed by the sparse header. */
  function BulkLogHeader(mb: Modbus, start: int, count: int, misc: seq<int>): (r: Result<seq<string>, HeaderError>)
    ensures r.Ok? <==> (forall a :: start <= a < start + count ==> a in mb.dict) && AllKnown(mb.dict, misc)
    ensures r.Ok? ==> |r.value| == (if count > 0 then count else 0) + |misc|
  {
    match RangeAddressHeader(mb, start, count)
    case Err(e) => Err(e)
    case Ok(range) =>
      match BulkAddressesHeader(mb, misc)
      case Err(e) => Err(e)
      case Ok(sparse) => Ok(range + sparse)
  }

  /** The header of a concatenation is the concatenation of the headers. */
  lemma {:induction false} BulkAddressesHeaderAppend(mb: Modbus, xs: seq<int>, ys: seq<int>)
    ensures BulkAddressesHeader(mb, xs + ys) ==
      match BulkAddressesHeader(mb, xs)
      case Err(e) => Err(e)
      case Ok(hx) =>
        match BulkAddressesHeader(mb, ys)
        case Err(e) => Err(e)
        case Ok(hy) => Ok(hx + hy)
  {
    if xs == [] {
      assert xs + ys == ys;
      match BulkAddressesHeader(mb, ys)
      case Err(e) =>
      case Ok(hy) => assert [] + hy == hy;
    } else {
      assert (xs + ys)[0] == xs[0];
      assert (xs + ys)[1..] == xs[1..] + ys;
      BulkAddressesHeaderAppend(mb, xs[1..], ys);
      if xs[0] in mb.dict {
        match BulkAddressesHeader(mb, xs[1..])
        case Err(e) =>
        case Ok(tx) =>
          match BulkAddressesHeader(mb, ys)
          case Err(e) =>
          case Ok(hy) =>
            assert [Label(mb.dict[xs[0]])] + (tx + hy) == ([Label(mb.dict[xs[0]])] + tx) + hy;
      }
    }
  }

  /**
   * The bulk header is the header of the column order, so column `i` is
   * labelled by address `ColumnAddresses(start, count, misc)[i]`, and a
   * failure names the first unknown address in column order.
   */
  lemma BulkLogHeaderFollowsColumns(mb: Modbus, start: int, count: int, misc: seq<int>)
    ensures BulkLogHeader(mb, start, count, misc)
         == BulkAddressesHeader(mb, ColumnAddresses(start, count, misc))
  {
    BulkAddressesHeaderAppend(mb, RangeAddresses(start, count), misc);
  }

  /** Column `i` of a bulk header labels address `ColumnAddresses(...)[i]`. */
  lemma BulkLogHeaderLabels(mb: Modbus, start: int, count: int, misc: seq<int>)
    requires BulkLogHeader(mb, start, count, misc).Ok?
    ensures var header := BulkLogHeader(mb, start, count, misc).value;
      var cols := ColumnAddresses(start, count, misc);
      && |header| == |cols|
      && forall i :: 0 <= i < |cols| ==> header[i] == Label(mb.dict[cols[i]])
  {
    BulkLogHeaderFollowsColumns(mb, start, count, misc);
  }
}
