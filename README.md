# Phaserunner Modbus sampler, modelled in Dafny

`Phaserunner::Modbus` polls a Grin Phaserunner motor controller over Modbus
and produces CSV material for a log. This project models its core:

- the merge of caller options over the shipped defaults (`DEFAULTS.merge opts`)
  that decides the serial link, the register dictionary file and the registers
  to log;
- the column header of one logged sample: a label `"name (units)"` per
  register, built from the register dictionary for a half-open address range
  followed by a list of sparse addresses;
- the data row of one sample: one range read followed by one count-1 read per
  sparse address.

The register read itself belongs to the external `rmodbus` client. It is the
parameter `bus: (Link, Request) -> Result<seq<int>, BusFault>`: the reply of
the device on a link (device path, baud rate, slave id) to a "read holding
registers" request, or the fault the client raised. The dictionary loader of
the external `asi_bod` gem is the parameter `load`, and its default file path
the parameter `bodPath`.

Ruby raises where a lookup or a read fails; the model returns `Err`. A label
for an address missing from the dictionary (`nil[:name]`) is
`Err(UnknownRegister(a))` for the first such address in column order. A read
that fails aborts the row with that read's fault, and no later read is
issued.

The central property is the alignment of header and row. Both follow one
column order, `Header.ColumnAddresses(start, count, misc)`, when the range
reply has `count` values: the range addresses ascending, then the sparse
addresses in the given order, duplicates included. Column `i` of the header
labels address `i` of that order. When the range reply has `count` values,
cell `i` of the row holds the value read for that same address. Against a
device that answers from a register file, whose range reply always has
`count` values, cell `i` holds exactly that register's value.

Files: `results.dfy` (Option, Result), `phaserunner.dfy` (options, defaults,
the `Modbus` object), `header.dfy` (labels and column order), `bulk.dfy`
(reads, data row, alignment).

The model does only what the code does, which is less than a full Modbus
sampler would:
- the code applies no scaling or type decoding to register values;
- it does not reject overlapping range and sparse addresses;
- it does not check the 125-register protocol bound;
- it performs no retries of its own.

## Model

| member | source | states |
|---|---|---|
| Phaserunner.Defaults | lib/phaserunner/modbus.rb:9-19 | The shipped register layout: the range starts at 258 with 12 registers, the sparse list is [277, 334], the dictionary file is the parameter `bodPath`, the link is `/dev/ttyUSB0` at 115200 baud, slave 1, and sampling loops forever, not quiet. |
| Phaserunner.Resolve | lib/phaserunner/modbus.rb:59-71 | For each option key, a value given by the caller overrides the default, and an absent key keeps its default. |
| Phaserunner.ResolveNoOptions | lib/phaserunner/modbus.rb:61 | With an empty options hash the configuration is exactly the defaults. |
| Phaserunner.ResolveFullOptions | lib/phaserunner/modbus.rb:61 | When options name every key, no default survives. |
| Phaserunner.New | lib/phaserunner/modbus.rb:59-76 | The object holds the merged options. Its dictionary is loaded from the caller's `dictionary_file` when one is given, otherwise from the default path. |
| Phaserunner.NewLink | lib/phaserunner/modbus.rb:78-81 | `LinkOf` is the settings `read_raw_range` opens its client with. For a new object these are the caller's `tty`, `baudrate` and `slave_id` where given, otherwise `/dev/ttyUSB0`, 115200 and 1. |
| Header.RangeAddresses | lib/phaserunner/modbus.rb:86-87 | The half-open range `[start, start+count)` has `max(count, 0)` addresses. Address `i` is `start + i`, and they strictly increase. |
| Header.LabelDetermines | lib/phaserunner/modbus.rb:88 | `Label` is the interpolation `"#{name} (#{units})"`, also used at line 100. Two registers with equal units have equal labels iff their names are equal, and likewise two registers with equal names and their units. |
| Header.BulkAddressesHeader | lib/phaserunner/modbus.rb:98-102 | The header succeeds iff every address is a dictionary key. It then has one label per address, in list order, duplicates included, and label `i` is `name + " (" + units + ")"` of `addrs[i]`. Otherwise the error names the first unknown address in list order. |
| Header.RangeAddressHeader | lib/phaserunner/modbus.rb:85-90 | The header succeeds iff every address of `[start, start+count)` is known. It then has `max(count, 0)` labels, and label `i` is that of address `start + i`. Otherwise the error names the lowest unknown address of the range. |
| Header.RangeKnown | lib/phaserunner/modbus.rb:87-88 | Every range address is known iff every integer of the interval is a dictionary key. |
| Header.RangeFirstUnknown | lib/phaserunner/modbus.rb:87-88 | The first unknown address of the range lies in the interval, and every lower address of the interval is known. |
| Header.ColumnAddresses | lib/phaserunner/modbus.rb:120-125 | The column order has `max(count, 0) + len(misc)` entries: the range addresses first, then `misc` in order. |
| Header.BulkLogHeader | lib/phaserunner/modbus.rb:120-125 | The bulk header succeeds iff all range addresses and all sparse addresses are known. Its length is then `max(count, 0) + len(misc)`. |
| Header.BulkAddressesHeaderAppend | lib/phaserunner/modbus.rb:98-102 | The header of `xs + ys` is the header of `xs` followed by the header of `ys`. It fails with the first failure of the two, in that order. |
| Header.BulkLogHeaderFollowsColumns | lib/phaserunner/modbus.rb:120-125 | The bulk header equals the sparse-style header of the column order, both on success and in which address an error names. |
| Header.BulkLogHeaderLabels | lib/phaserunner/modbus.rb:120-125 | A successful bulk header has one label per column, and label `i` is the label of column address `i`. |
| Bulk.ReadRawRange | lib/phaserunner/modbus.rb:78-83 | One "read holding registers" request for `count` registers from `start`, sent on the link given by the object's `tty`, `baudrate` and `slave_id`. The reply or fault is the external client's. |
| Bulk.ReadRawRangeLink | lib/phaserunner/modbus.rb:78-83 | Only `tty`, `baudrate` and `slave_id` reach the device. Two objects that agree on them get the same reply to the same request, whatever their dictionary and register options. |
| Bulk.ReadAddresses | lib/phaserunner/modbus.rb:92-96 | The reads succeed iff every count-1 read succeeds. Then result `i` is the reply for `addrs[i]` and there is one result per address. Otherwise the fault is that of the first failing read in list order. |
| Bulk.SparseReads | lib/phaserunner/modbus.rb:92-96 | The reads put on the bus are the count-1 reads of a prefix of `addrs`, in list order. |
| Bulk.SparseReadsStop | lib/phaserunner/modbus.rb:92-96 | If every read succeeds, all addresses are read. Otherwise reading stops right after the first failing read, and all earlier reads succeeded. |
| Bulk.BulkLogData | lib/phaserunner/modbus.rb:109-113 | The row succeeds iff the range read and every sparse read succeed. A failed range read is reported first, otherwise the first failing sparse read. On success the row is the range reply's values, one cell each, followed by one one-list cell per sparse address holding that address's count-1 reply. |
| Bulk.BulkReads | lib/phaserunner/modbus.rb:112 | The reads of one sample in Ruby's evaluation order for `+`. The first read is the range read, at most `1 + len(misc)` reads are issued, and a failed range read issues no sparse read. |
| Bulk.BulkReadsPrefix | lib/phaserunner/modbus.rb:112 | The reads of one sample are a prefix of the plan `[(start, count)] + [(a, 1) for a in misc]`. |
| Bulk.BulkReadsComplete | lib/phaserunner/modbus.rb:112 | A produced row issued the whole plan, in order: the range first and then each sparse address. |
| Bulk.BulkReadsStopAtFault | lib/phaserunner/modbus.rb:112 | A failed row's last issued read is the one whose fault it reports, and every read before it succeeded. No partial row results. |
| Bulk.SparsePlanCovers | lib/phaserunner/modbus.rb:92-96 | The count-1 reads of `addrs` cover exactly `addrs`, in order. |
| Bulk.BulkPlanCoversColumns | lib/phaserunner/modbus.rb:109-125 | The reads of a full sample cover exactly the header's column addresses, in column order. |
| Bulk.RowCellsFollowColumns | lib/phaserunner/modbus.rb:109-113 | When the range reply has `count` values, the row has one cell per column. Range cell `i` is reply value `i` for address `start + i`. Sparse cell `i` is the reply for column address `i`. |
| Bulk.HeaderLabelsRow | lib/phaserunner/modbus.rb:109-125 | When header and row both succeed and the range reply has `count` values, they have equal length. Header column `i` labels the same address whose read cell `i` holds. |
| Bulk.ShortRangeReplyShifts | lib/phaserunner/modbus.rb:112 | The row is not checked against the range count. With addresses 0 and 5 in the dictionary and a device that answers every read with no values, the header for range `[0, 1)` plus `[5]` has 2 labels, while the row is the single cell `[]` (the reply for address 5) under the range column. |
| Bulk.RowHoldsColumnRegisters | lib/phaserunner/modbus.rb:109-125 | Against a device answering from a register file, a successful header implies a successful row of equal length. Header column `i` labels address `a`, and cell `i` holds exactly register `a`'s value, sparse cells as one-element lists. |
| Bulk.DefaultSampleWidth | lib/phaserunner/modbus.rb:109-125 | With the shipped register defaults, the columns are 258..269, 277 and 334. A successful header has 14 labels, and a row has 14 cells when the range reply has 12 values. |

## Left out

- The body of `read_raw_range` (opening an `rmodbus` RTU client and reading holding registers). Modbus RTU framing, CRC16, function code 0x03, timeouts and retries all live in that gem and are not part of this model. The read is the parameter `bus`. Apart from the register-file lemmas, the model only assumes that the reply depends on the link and the request, as stated in the next line.
- Time-varying replies. `bus` is a function of link and request, so two reads of the same address within one sample get the same reply or the same fault. In Ruby each `read_raw_range` at lines 93-95 is its own transaction with a fresh `RTUClient`. With `registers_misc = [277, 277]`, the first read may succeed and the second time out, or the two cells may hold different values. The model cannot express either case, although the header keeps duplicate addresses.
- A check of the range reply's length. `bulk_log_data` at line 112 never compares the length of the range reply with `count`. A shorter or longer reply shifts every sparse cell away from its header column. For example, a reply `[]` to a one-register range leaves the first sparse cell under the range column. `Bulk.ShortRangeReplyShifts` proves this case. The alignment lemmas therefore require a range reply of `count` values.
- The 125-register bound of section 6.3 of the Modbus Application Protocol Specification V1.1b3, which the code does not enforce.
- Loading the dictionary with `AsiBod::Bod` from a JSON file, and the gem's `default_file_path`. These are the parameters `load` and `bodPath`.
- The reflection that turns every option into an attribute (`attr_accessor`, `instance_variable_set`). It is replaced by the `Config` record.
- Phaserunner.Defaults: takes the dictionary file to be `AsiBod::Bod.default_file_path`, the parameter `bodPath`, as the author evidently intended. As written, line 13 calls `default_file_path` in the class body before line 51 defines `self.default_file_path`, so evaluating `DEFAULTS` raises `NameError`, unless code outside this model had already defined that method.
- Phaserunner.Resolve: covers only the keys of `DEFAULTS`. Ruby also turns any extra key of the options hash into an attribute, and it accepts values of any type for a key.
- Header.BulkAddressesHeader: models each dictionary entry as a record with string `name` and `units`. In Ruby an entry that lacks `:name` or `:units` interpolates as an empty string; a non-hash entry is not modelled.
- The default arguments of `bulk_log_data` and `bulk_log_header`. A call that omits them is the call with the configuration's `registers_start_address`, `registers_count` and `registers_misc`, as `Bulk.DefaultSampleWidth` uses them.
- The `:scale` and `:type` fields of the dictionary. The code documents them but never applies them, so no decoding is modelled.
- `lib/phaserunner/main.rb` in full: command-line wiring, printing, the timestamped CSV file, `Time.now`, `sleep` pacing, and the flattening of nested cells by `Array#join`.
