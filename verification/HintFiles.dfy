/** What loading makes of any hint file that was written record by record. */
module HintFiles {
  import opened ByteStrings
  import opened LogRecords
  import opened DataFiles
  import opened Logs
  import opened Recovery
  import opened Engine

  /** The values of the first `n` records are encoded places. */
  ghost predicate ArePlaces(hints: Log, n: nat)
    requires n <= |hints|
  {
    forall i | 0 <= i < n :: DecodePos(hints[i].value).Pos?
  }

  /** What the first `n` records put into the index. */
  ghost function PlacesOf(hints: Log, n: nat): Index
    requires n <= |hints| && ArePlaces(hints, n)
  {
    if n == 0 then map[] else PlacesOf(hints, n - 1)[hints[n - 1].key := DecodePos(hints[n - 1].value).pos]
  }

  lemma {:induction false} LoadFrom(crc: Checksum, hints: Log, n: nat, i: nat, k: nat)
    requires AllReadable(crc, hints) && i <= n <= |hints| && ArePlaces(hints, n)
    requires n < |hints| ==> DecodePos(hints[n].value).BadPos?
    ensures LoadHint(crc, EncodeLog(crc, hints) + Zeros(k), LogSize(hints[..i]), PlacesOf(hints, i)) ==
      if n < |hints| || k == 5 || k == 6 then Failed(PlacesOf(hints, n)) else Loaded(PlacesOf(hints, n))
    decreases n - i
  {
    hide EncodeLog, ReadRecord, LogSize, RecordSize, DecodePos, Readable;
    if i == |hints| {
      assert hints[..i] == hints;
      EncodeLogLength(crc, hints);
      ReadZeros(crc, EncodeLog(crc, hints), k);
    } else {
      ReadLogAt(crc, hints, i, Zeros(k));
      if i < n {
        assert hints[..i + 1] == hints[..i] + [hints[i]];
        LogSizeSnoc(hints[..i], hints[i]);
        LoadFrom(crc, hints, n, i + 1, k);
      }
    }
  }

  /** A hint file loads record by record up to its end. A value that is no place, or exactly five or six
      zeros behind the last record, make the load fail there, and what was loaded before stays. */
  lemma HintFileMeans(crc: Checksum, hints: Log, n: nat, k: nat)
    requires AllReadable(crc, hints) && n <= |hints| && ArePlaces(hints, n)
    requires n < |hints| ==> DecodePos(hints[n].value).BadPos?
    ensures LoadHint(crc, EncodeLog(crc, hints) + Zeros(k), 0, map[]) ==
      if n < |hints| || k == 5 || k == 6 then Failed(PlacesOf(hints, n)) else Loaded(PlacesOf(hints, n))
  {
    hide EncodeLog, LoadHint, DecodePos;
    assert hints[..0] == [];
    LoadFrom(crc, hints, n, 0, k);
  }
}
