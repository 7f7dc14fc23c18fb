/** The value of a stream key: entries in order of arrival, counters and consumer groups. */
module StreamTypes {
  import opened Bytes

  const U64_MAX: int := 0xFFFF_FFFF_FFFF_FFFF

  type u64 = n: int | 0 <= n <= U64_MAX

  /** Milliseconds, then a number within the millisecond. */
  datatype StreamId = StreamId(ms: u64, number: u64)

  datatype Entry = Entry(id: StreamId, fields: seq<(string, seq<byte>)>)

  datatype Pending = Pending(consumer: string, deliveredAt: int, deliveries: u64)

  type PendingList = map<StreamId, Pending>

  datatype Group = Group(lastDelivered: StreamId, consumers: map<string, int>, pending: PendingList)

  datatype StreamValue = StreamValue(
    entries: seq<Entry>,
    lastGenerated: StreamId,
    maxDeleted: StreamId,
    entriesAdded: u64,
    groups: map<string, Group>)
}
