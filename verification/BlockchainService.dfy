/** The block listener: picks the events of the pallet out of each block and queues them. */
module BlockchainService {
  import opened Prelude
  import opened Payload

  datatype EventRecord = EventRecord(section: string, name: string, data: Json)

  datatype Block = Block(number: nat, hash: string, records: seq<EventRecord>)

  datatype Job = Job(blockNumber: nat, blockHash: string, pallet: string, name: string, data: Json)

  const SECTION := "userProfile"

  /** An event with the block it came from. */
  datatype Located = Located(number: nat, hash: string, record: EventRecord)

  function Locate(number: nat, hash: string, records: seq<EventRecord>): (r: seq<Located>)
    ensures |r| == |records|
    ensures forall i :: 0 <= i < |r| ==> r[i] == Located(number, hash, records[i])
  {
    seq(|records|, i requires 0 <= i < |records| => Located(number, hash, records[i]))
  }

  /** All events of a chain of blocks, in order. */
  function Flatten(blocks: seq<Block>): seq<Located> {
    if blocks == [] then []
    else Locate(blocks[0].number, blocks[0].hash, blocks[0].records) + Flatten(blocks[1..])
  }

  predicate IsOfPallet(event: Located) { event.record.section == SECTION }

  function OfPallet(events: seq<Located>): seq<Located> {
    Filter(events, IsOfPallet)
  }

  function JobOf(l: Located): Job {
    Job(l.number, l.hash, l.record.section, l.record.name, l.record.data)
  }

  function Jobs(events: seq<Located>): (jobs: seq<Job>)
    ensures |jobs| == |events|
    ensures forall i :: 0 <= i < |jobs| ==> jobs[i] == JobOf(events[i])
  {
    seq(|events|, i requires 0 <= i < |events| => JobOf(events[i]))
  }

  lemma JobsConcat(a: seq<Located>, b: seq<Located>)
    ensures Jobs(a + b) == Jobs(a) + Jobs(b)
  {
  }

  /** An event passes exactly when its section is that of the pallet, and in its place. */
  lemma OfPalletSnoc(events: seq<Located>, l: Located)
    ensures OfPallet([]) == []
    ensures OfPallet(events + [l]) ==
            if l.record.section == "userProfile" then OfPallet(events) + [l] else OfPallet(events)
  {
    FilterSnoc(events, l, IsOfPallet);
  }

  lemma OfPalletIff(events: seq<Located>, l: Located)
    ensures l in OfPallet(events) <==> l in events && l.record.section == "userProfile"
  {
    FilterMember(events, l, IsOfPallet);
  }

  lemma NewJobs(number: nat, hash: string, records: seq<EventRecord>)
    ensures forall job :: job in Jobs(OfPallet(Locate(number, hash, records))) ==>
                            job.pallet == "userProfile" && job.blockNumber == number && job.blockHash == hash
  {
    var located := OfPallet(Locate(number, hash, records));
    forall job | job in Jobs(located)
      ensures job.pallet == "userProfile" && job.blockNumber == number && job.blockHash == hash
    {
      var i :| 0 <= i < |located| && Jobs(located)[i] == job;
      OfPalletIff(Locate(number, hash, records), located[i]);
    }
  }

  class Listener {
    var eventQueue: seq<Job>

    constructor ()
      ensures eventQueue == []
    {
      eventQueue := [];
    }

    method ProcessBlockEvents(blockNumber: nat, blockHash: string, events: seq<EventRecord>)
      modifies this
      ensures eventQueue == old(eventQueue) + Jobs(OfPallet(Locate(blockNumber, blockHash, events)))
      ensures forall k :: |old(eventQueue)| <= k < |eventQueue| ==>
                            && eventQueue[k].pallet == "userProfile"
                            && eventQueue[k].blockNumber == blockNumber && eventQueue[k].blockHash == blockHash
    {
      ghost var all := Locate(blockNumber, blockHash, events);
      for i := 0 to |events|
        invariant eventQueue == old(eventQueue) + Jobs(OfPallet(all[..i]))
      {
        var event := events[i];
        assert all[..i + 1] == all[..i] + [all[i]];
        FilterSnoc(all[..i], all[i], IsOfPallet);
        JobsConcat(OfPallet(all[..i]), [all[i]]);
        if event.section == SECTION {
          eventQueue := eventQueue + [Job(blockNumber, blockHash, event.section, event.name, event.data)];
        }
      }
      assert all[..|events|] == all;
      NewJobs(blockNumber, blockHash, events);
    }
  }

  /** The queue after these blocks were processed one at a time, each without error. */
  function QueueAfter(blocks: seq<Block>): seq<Job> {
    if blocks == [] then []
    else
      var b := blocks[|blocks| - 1];
      QueueAfter(blocks[..|blocks| - 1]) + Jobs(OfPallet(Locate(b.number, b.hash, b.records)))
  }

  lemma {:induction false} FlattenSnoc(blocks: seq<Block>, b: Block)
    ensures Flatten(blocks + [b]) == Flatten(blocks) + Locate(b.number, b.hash, b.records)
  {
    if blocks == [] {
      assert ([b])[1..] == [];
      assert blocks + [b] == [b];
    } else {
      assert (blocks + [b])[1..] == blocks[1..] + [b];
      FlattenSnoc(blocks[1..], b);
    }
  }

  lemma {:induction false} QueueIsFilteredLog(blocks: seq<Block>)
    ensures QueueAfter(blocks) == Jobs(OfPallet(Flatten(blocks)))
  {
    if blocks != [] {
      var before, b := blocks[..|blocks| - 1], blocks[|blocks| - 1];
      var events := Locate(b.number, b.hash, b.records);
      QueueIsFilteredLog(before);
      assert blocks == before + [b];
      FlattenSnoc(before, b);
      FilterConcat(Flatten(before), events, IsOfPallet);
      JobsConcat(OfPallet(Flatten(before)), OfPallet(events));
    }
  }

  lemma {:induction false} FlattenMember(blocks: seq<Block>, l: Located)
    ensures l in Flatten(blocks) <==>
            exists b :: b in blocks && l.number == b.number && l.hash == b.hash && l.record in b.records
  {
    if blocks != [] {
      var b := blocks[0];
      FlattenMember(blocks[1..], l);
      assert blocks == [b] + blocks[1..];
      LocateMember(b.number, b.hash, b.records, l);
    }
  }

  lemma LocateMember(number: nat, hash: string, records: seq<EventRecord>, l: Located)
    ensures l in Locate(number, hash, records) <==> l.number == number && l.hash == hash && l.record in records
  {
    if l.number == number && l.hash == hash && l.record in records {
      var i :| 0 <= i < |records| && records[i] == l.record;
      assert Locate(number, hash, records)[i] == l;
    }
  }

  /** A job is queued exactly for a record of the pallet in some block, with all it carries. */
  lemma QueueHoldsIff(blocks: seq<Block>, job: Job)
    ensures job in QueueAfter(blocks) <==>
            job.pallet == "userProfile" &&
            exists b :: && b in blocks && job.blockNumber == b.number && job.blockHash == b.hash
                        && EventRecord(job.pallet, job.name, job.data) in b.records
  {
    QueueIsFilteredLog(blocks);
    var l := Located(job.blockNumber, job.blockHash, EventRecord(job.pallet, job.name, job.data));
    var events := OfPallet(Flatten(blocks));
    FlattenMember(blocks, l);
    OfPalletIff(Flatten(blocks), l);
    JobsMember(events, job);
  }

  lemma JobsMember(events: seq<Located>, job: Job)
    ensures job in Jobs(events) <==>
            Located(job.blockNumber, job.blockHash, EventRecord(job.pallet, job.name, job.data)) in events
  {
    var l := Located(job.blockNumber, job.blockHash, EventRecord(job.pallet, job.name, job.data));
    if l in events {
      var i :| 0 <= i < |events| && events[i] == l;
      assert Jobs(events)[i] == job;
    }
  }
}
