/** Waveform samples of a session: appended per channel, pruned to the newest groups of equal sequence number. */
module Waveform {
  import opened Bytes

  const MAX_WAVEFORM_SAMPLE_GROUPS: nat := 600
  const MAX_SQL_INTEGER: nat := 0x7fff_ffff_ffff_ffff

  datatype Reading = Finite(value: real) | NotFinite

  /** The primary key of a sample within its session. */
  datatype Key = Key(channel: nat, seqNo: nat)

  datatype Sample = Sample(key: Key, timestampMs: nat, reading: Reading)

  datatype Appended = Ok(table: map<Key, Sample>) | UnknownChannel | DuplicateKey

  predicate ValidSamples(samples: seq<Sample>) {
    && samples != []
    && (forall s | s in samples ::
          s.key.channel <= 7 && s.reading.Finite? && s.key.seqNo <= MAX_SQL_INTEGER && s.timestampMs <= MAX_SQL_INTEGER)
    && forall i, j | 0 <= i < j < |samples| :: samples[i].key != samples[j].key
  }

  /** Samples go in one by one; a channel that does not exist or a key that does fails the batch. */
  function InsertAll(table: map<Key, Sample>, channels: set<nat>, samples: seq<Sample>): Appended
    decreases |samples|
  {
    if samples == [] then Ok(table)
    else if samples[0].key.channel !in channels then UnknownChannel
    else if samples[0].key in table then DuplicateKey
    else InsertAll(table[samples[0].key := samples[0]], channels, samples[1..])
  }

  /** The groups of samples: one for each sequence number. */
  function Groups(table: map<Key, Sample>): set<nat> {
    set k | k in table :: k.seqNo
  }

  function Newer(table: map<Key, Sample>, seqNo: nat): set<nat> {
    set g | g in Groups(table) && g > seqNo
  }

  /** What is left when only the newest groups may stay. */
  function Prune(table: map<Key, Sample>): map<Key, Sample> {
    map k | k in table && |Newer(table, k.seqNo)| < MAX_WAVEFORM_SAMPLE_GROUPS :: table[k]
  }

  function Append(table: map<Key, Sample>, channels: set<nat>, samples: seq<Sample>): Appended {
    var inserted := InsertAll(table, channels, samples);
    if inserted.Ok? then Ok(Prune(inserted.table)) else inserted
  }

  method AppendSamples(table: map<Key, Sample>, channels: set<nat>, samples: seq<Sample>) returns (r: Appended)
    ensures r == Append(table, channels, samples)
  {
    var rows := table;
    for i := 0 to |samples|
      invariant InsertAll(table, channels, samples) == InsertAll(rows, channels, samples[i..])
    {
      assert samples[i..][1..] == samples[i + 1..];
      if samples[i].key.channel !in channels { return UnknownChannel; }
      if samples[i].key in rows { return DuplicateKey; }
      rows := rows[samples[i].key := samples[i]];
    }
    return Ok(Prune(rows));
  }

  lemma {:induction false} InsertedAll(table: map<Key, Sample>, channels: set<nat>, samples: seq<Sample>)
    requires InsertAll(table, channels, samples).Ok?
    ensures var after := InsertAll(table, channels, samples).table;
            && (forall k | k in table :: k in after && after[k] == table[k])
            && (forall s | s in samples :: s.key in after && after[s.key] == s)
            && forall k | k in after :: k in table || exists s :: s in samples && s.key == k
    decreases |samples|
  {
    if samples != [] {
      InsertedAll(table[samples[0].key := samples[0]], channels, samples[1..]);
      assert samples == [samples[0]] + samples[1..];
    }
  }

  datatype Channel = Channel(index: nat, config: string)

  predicate ValidChannels(channels: seq<Channel>) {
    && |channels| <= 8 && (forall c | c in channels :: c.index <= 7)
    && forall i, j | 0 <= i < j < |channels| :: channels[i].index != channels[j].index
  }

  function ChannelTable(channels: seq<Channel>): map<nat, string> {
    if channels == [] then map[]
    else
      var last := channels[|channels| - 1];
      ChannelTable(channels[..|channels| - 1])[last.index := last.config]
  }

  /** Every sample belongs to a channel that exists, and there are not too many groups. */
  predicate GoodSamples(table: map<Key, Sample>, channels: set<nat>) {
    && (forall k | k in table :: table[k].key == k && k.channel in channels)
    && |Groups(table)| <= MAX_WAVEFORM_SAMPLE_GROUPS
  }

  lemma {:induction false} InsertKeeps(table: map<Key, Sample>, channels: set<nat>, samples: seq<Sample>)
    requires InsertAll(table, channels, samples).Ok? && forall k | k in table :: table[k].key == k && k.channel in channels
    ensures var after := InsertAll(table, channels, samples).table;
            forall k | k in after :: after[k].key == k && k.channel in channels
    decreases |samples|
  {
    if samples != [] {
      InsertKeeps(table[samples[0].key := samples[0]], channels, samples[1..]);
    }
  }

  lemma AppendKeeps(table: map<Key, Sample>, channels: set<nat>, samples: seq<Sample>)
    requires GoodSamples(table, channels) && Append(table, channels, samples).Ok?
    ensures GoodSamples(Append(table, channels, samples).table, channels)
  {
    hide Groups;
    InsertKeeps(table, channels, samples);
    PruneBounds(InsertAll(table, channels, samples).table);
  }

  lemma NoSamples(channels: set<nat>)
    ensures GoodSamples(map[], channels)
  {
  }

  /** Pruning keeps or drops whole groups, the newest ones stay, and what stays is unchanged. */
  lemma PruneKeepsNewest(table: map<Key, Sample>, kept: Key, other: Key)
    requires kept in Prune(table) && other in table && other.seqNo >= kept.seqNo
    ensures other in Prune(table) && Prune(table)[other] == table[other]
  {
    Fewer(Newer(table, other.seqNo), Newer(table, kept.seqNo));
  }

  lemma {:induction false} Fewer(a: set<nat>, b: set<nat>)
    requires a <= b
    ensures |a| <= |b|
  {
    if a != {} {
      var x :| x in a;
      Fewer(a - {x}, b - {x});
    }
  }

  lemma {:induction false} Least(s: set<nat>) returns (m: nat)
    requires s != {}
    ensures m in s && forall x | x in s :: m <= x
  {
    var any :| any in s;
    var rest := s - {any};
    assert s == rest + {any};
    m := any;
    if rest != {} {
      var other := Least(rest);
      if other < m { m := other; }
    }
  }

  lemma {:induction false} Greatest(s: set<nat>) returns (m: nat)
    requires s != {}
    ensures m in s && forall x | x in s :: x <= m
  {
    var any :| any in s;
    var rest := s - {any};
    assert s == rest + {any};
    m := any;
    if rest != {} {
      var other := Greatest(rest);
      if other > m { m := other; }
    }
  }

  lemma GroupKept(table: map<Key, Sample>, g: nat)
    ensures g in Groups(Prune(table)) <==> g in Groups(table) && |Newer(table, g)| < MAX_WAVEFORM_SAMPLE_GROUPS
  {
    if g in Groups(table) && |Newer(table, g)| < MAX_WAVEFORM_SAMPLE_GROUPS {
      var k :| k in table && k.seqNo == g;
      assert k in Prune(table);
    }
  }

  /** Exactly the newest 600 groups stay, or all of them if there are no more. */
  lemma PruneBounds(table: map<Key, Sample>)
    ensures |Groups(Prune(table))| <= 600
    ensures |Groups(Prune(table))| < 600 ==> Prune(table) == table
  {
    hide Groups, Prune;
    var all, kept := Groups(table), Groups(Prune(table));
    forall g: nat ensures g in kept <==> g in all && |Newer(table, g)| < MAX_WAVEFORM_SAMPLE_GROUPS {
      GroupKept(table, g);
    }
    if kept != {} {
      var least := Least(kept);
      Fewer(kept - {least}, Newer(table, least));
    }
    var dropped := all - kept;
    if dropped == {} {
      AllKept(table);
    } else {
      var greatest := Greatest(dropped);
      assert forall g | g in Newer(table, greatest) :: g in all && g !in dropped;
      Fewer(Newer(table, greatest), kept);
    }
  }

  lemma AllKept(table: map<Key, Sample>)
    requires forall g | g in Groups(table) :: |Newer(table, g)| < MAX_WAVEFORM_SAMPLE_GROUPS
    ensures Prune(table) == table
  {
    forall k | k in table ensures k in Prune(table) {
      assert k.seqNo in Groups(table);
    }
  }
}
