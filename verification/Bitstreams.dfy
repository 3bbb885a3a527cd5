/** The DSDIFF and DSF readers of dff.h and dsf.h: one-bit samples, delivered in interleaved order. */
module Bitstreams {
  import Signals

  type Byte = b: int | 0 <= b < 256

  function Pow2(k: nat): (p: nat)
    ensures p >= 1
  {
    if k == 0 then 1 else 2 * Pow2(k - 1)
  }

  /** The sample that bit `mask` of a byte stands for. */
  function BitSample(b: Byte, mask: nat): real {
    if (b / Pow2(mask)) % 2 == 1 then 1.0 else -1.0
  }

  /** The bit played in turn `j` of a byte. */
  function BitInTurn(msbFirst: bool, j: nat): nat
    requires j < 8
  {
    if msbFirst then 7 - j else j
  }

  /** What is left of a byte above bit `k`. */
  function Above(b: int, k: nat): int {
    b / Pow2(k)
  }

  lemma Halve(b: int, k: nat)
    ensures Above(b, k) == 2 * Above(b, k + 1) + Above(b, k) % 2
  {
    var p, q := Pow2(k), b / Pow2(k) / 2;
    var r := b / p % 2 * p + b % p;
    assert b == b / p * p + b % p && b / p == 2 * q + b / p % 2;
    assert b == q * (2 * p) + r;
    assert r < 2 * p by { if b / p % 2 == 1 { assert 1 * p == p; } else { assert 0 * p == 0; } }
    Signals.DivUnique(b, 2 * p, q, r);
  }

  /** A byte is the sum of the weights of its high bits. */
  lemma BitsOfByte(b: Byte)
    ensures b == 128 * (Above(b, 7) % 2) + 64 * (Above(b, 6) % 2) + 32 * (Above(b, 5) % 2) + 16 * (Above(b, 4) % 2)
      + 8 * (Above(b, 3) % 2) + 4 * (Above(b, 2) % 2) + 2 * (Above(b, 1) % 2) + Above(b, 0) % 2
  {
    assert Above(b, 0) == b && Above(b, 8) == 0 by { assert Pow2(0) == 1 && Pow2(8) == 256 * Pow2(0); }
    hide Above;
    Halve(b, 0);
    Halve(b, 1);
    Halve(b, 2);
    Halve(b, 3);
    Halve(b, 4);
    Halve(b, 5);
    Halve(b, 6);
    Halve(b, 7);
  }

  lemma HighOrLow(b: Byte, k: nat)
    ensures BitSample(b, k) == 1.0 || BitSample(b, k) == -1.0
  {
  }

  lemma WeightOfBit(b: Byte, k: nat, weight: nat)
    ensures (if BitSample(b, k) == 1.0 then weight else 0) == weight * (Above(b, k) % 2)
  {
  }

  /** The samples of a byte, in figures. */
  lemma SamplesOfByte(b: Byte)
    ensures b == (if BitSample(b, 7) == 1.0 then 128 else 0) + (if BitSample(b, 6) == 1.0 then 64 else 0)
      + (if BitSample(b, 5) == 1.0 then 32 else 0) + (if BitSample(b, 4) == 1.0 then 16 else 0)
      + (if BitSample(b, 3) == 1.0 then 8 else 0) + (if BitSample(b, 2) == 1.0 then 4 else 0)
      + (if BitSample(b, 1) == 1.0 then 2 else 0) + (if BitSample(b, 0) == 1.0 then 1 else 0)
  {
    hide BitSample, Above;
    BitsOfByte(b);
    WeightOfBit(b, 7, 128);
    WeightOfBit(b, 6, 64);
    WeightOfBit(b, 5, 32);
    WeightOfBit(b, 4, 16);
    WeightOfBit(b, 3, 8);
    WeightOfBit(b, 2, 4);
    WeightOfBit(b, 1, 2);
    WeightOfBit(b, 0, 1);
  }

  /** makeTbl(): the eight samples of every byte, in playing order. */
  method MakeTbl(msbFirst: bool) returns (samplTbl: array2<real>)
    ensures fresh(samplTbl) && samplTbl.Length0 == 256 && samplTbl.Length1 == 8
    ensures forall i, j :: 0 <= i < 256 && 0 <= j < 8 ==> samplTbl[i, j] == BitSample(i, BitInTurn(msbFirst, j))
    // in figures: each sample is 1 or -1, and the byte is the sum of the weights of the samples that are 1
    ensures forall i, j :: 0 <= i < 256 && 0 <= j < 8 ==> samplTbl[i, j] == 1.0 || samplTbl[i, j] == -1.0
    ensures msbFirst ==> forall i :: 0 <= i < 256 ==>
      i == (if samplTbl[i, 0] == 1.0 then 128 else 0) + (if samplTbl[i, 1] == 1.0 then 64 else 0)
        + (if samplTbl[i, 2] == 1.0 then 32 else 0) + (if samplTbl[i, 3] == 1.0 then 16 else 0)
        + (if samplTbl[i, 4] == 1.0 then 8 else 0) + (if samplTbl[i, 5] == 1.0 then 4 else 0)
        + (if samplTbl[i, 6] == 1.0 then 2 else 0) + (if samplTbl[i, 7] == 1.0 then 1 else 0)
    ensures !msbFirst ==> forall i :: 0 <= i < 256 ==>
      i == (if samplTbl[i, 0] == 1.0 then 1 else 0) + (if samplTbl[i, 1] == 1.0 then 2 else 0)
        + (if samplTbl[i, 2] == 1.0 then 4 else 0) + (if samplTbl[i, 3] == 1.0 then 8 else 0)
        + (if samplTbl[i, 4] == 1.0 then 16 else 0) + (if samplTbl[i, 5] == 1.0 then 32 else 0)
        + (if samplTbl[i, 6] == 1.0 then 64 else 0) + (if samplTbl[i, 7] == 1.0 then 128 else 0)
  {
    hide BitSample;
    samplTbl := new real[256, 8];
    for i := 0 to 256
      invariant forall k, j :: 0 <= k < i && 0 <= j < 8 ==> samplTbl[k, j] == BitSample(k, BitInTurn(msbFirst, j))
    {
      for j := 0 to 8
        invariant forall k, l :: 0 <= k < i && 0 <= l < 8 ==> samplTbl[k, l] == BitSample(k, BitInTurn(msbFirst, l))
        invariant forall l :: 0 <= l < j ==> samplTbl[i, l] == BitSample(i, BitInTurn(msbFirst, l))
      {
        samplTbl[i, j] := BitSample(i, if msbFirst then 7 - j else j);
      }
    }
    forall i, j | 0 <= i < 256 && 0 <= j < 8 ensures samplTbl[i, j] == 1.0 || samplTbl[i, j] == -1.0 {
      HighOrLow(i, BitInTurn(msbFirst, j));
    }
    forall b: Byte { SamplesOfByte(b); }
  }

  /** How many buffers the bytes there are fill. */
  function Buffers(available: nat, bufferSize: nat): (n: nat)
    requires bufferSize >= 1
    ensures n * bufferSize <= available < (n + 1) * bufferSize
  {
    available / bufferSize
  }

  /** A sample's place: byte group, bit, channel. Channels vary fastest, then bits. */
  function SampleIndex(channels: nat, group: nat, bit: nat, channel: nat): nat {
    (group * 8 + bit) * channels + channel
  }

  lemma SamplePlace(channels: nat, group: nat, bit: nat, channel: nat)
    requires bit < 8 && channel < channels
    ensures var k := SampleIndex(channels, group, bit, channel);
      k % channels == channel && (k / channels) % 8 == bit && k / channels / 8 == group
  {
    var k := SampleIndex(channels, group, bit, channel);
    Signals.DivUnique(k, channels, group * 8 + bit, channel);
    Signals.DivUnique(group * 8 + bit, 8, group, bit);
  }

  /** Where the next sample stands. */
  lemma NextSample(channels: nat, group: nat, bit: nat, channel: nat)
    requires bit < 8 && channel < channels
    ensures SampleIndex(channels, group, bit, channel) + 1 ==
      if channel + 1 < channels then SampleIndex(channels, group, bit, channel + 1)
      else if bit + 1 < 8 then SampleIndex(channels, group, bit + 1, 0)
      else SampleIndex(channels, group + 1, 0, 0)
  {
    if channel + 1 == channels {
      assert (group * 8 + bit + 1) * channels == (group * 8 + bit) * channels + channels;
    }
  }

  lemma IndexBefore(channels: nat, group: nat, bit: nat, channel: nat, groups: nat)
    requires bit < 8 && channel < channels
    ensures group < groups ==> SampleIndex(channels, group, bit, channel) < SampleIndex(channels, groups, 0, 0)
    ensures SampleIndex(channels, groups, 0, 0) == 8 * (groups * channels)
  {
    if group < groups {
      Signals.MulMono(group * 8 + bit + 1, groups * 8, channels);
    }
    assert groups * 8 * channels == 8 * (groups * channels);
  }
}

module DsdiffReader {
  import opened Bitstreams
  import Signals

  const BLOCK_SIZE: nat := 4096

  /**
   * Sample `k` of the ideal sequence: bytes go round the channels, and in each byte the most significant bit
   * is first.
   */
  function IdealSample(data: seq<Byte>, channels: nat, k: nat): real
    requires channels >= 1
  {
    var at := k / channels / 8 * channels + k % channels;
    if 0 <= at < |data| then BitSample(data[at], BitInTurn(true, (k / channels) % 8)) else 0.0
  }

  /**
   * The ideal sequence holds every bit of every byte of every channel, at the place its group, turn and
   * channel give.
   */
  lemma IdealSampleAt(data: seq<Byte>, channels: nat, group: nat, bit: nat, channel: nat)
    requires bit < 8 && channel < channels && group * channels + channel < |data|
    ensures SampleIndex(channels, group, bit, channel) == (group * 8 + bit) * channels + channel
    ensures IdealSample(data, channels, SampleIndex(channels, group, bit, channel))
         == BitSample(data[group * channels + channel], 7 - bit)
  {
    SamplePlace(channels, group, bit, channel);
  }

  /** The bytes of `groups` byte groups, one byte for each channel. */
  function Bytes(groups: nat, channels: nat): nat {
    groups * channels
  }

  lemma BytesAdd(a: nat, b: nat, channels: nat)
    ensures Bytes(a + b, channels) == Bytes(a, channels) + Bytes(b, channels) && Bytes(1, channels) == channels
  {
  }

  lemma BytesOrder(a: nat, b: nat, channels: nat)
    requires channels >= 1
    ensures a <= b <==> Bytes(a, channels) <= Bytes(b, channels)
    ensures a < b ==> Bytes(a, channels) + channels <= Bytes(b, channels)
  {
    if a <= b {
      Signals.MulMono(a, b, channels);
      if a < b { Signals.MulMono(a + 1, b, channels); }
    } else {
      Signals.MulMono(b + 1, a, channels);
    }
  }

  lemma NextMultiple(a: nat, b: nat)
    requires a % BLOCK_SIZE == b % BLOCK_SIZE == 0 && a < b
    ensures a + BLOCK_SIZE <= b && (a + BLOCK_SIZE) % BLOCK_SIZE == 0
  {
  }

  lemma BytesAtStart(channels: nat, total: nat)
    requires channels >= 1 && total % channels == 0
    ensures Bytes(total / channels, channels) == total && Bytes(BLOCK_SIZE, channels) == BLOCK_SIZE * channels >= 1
    ensures Bytes(0, channels) == 0 == SampleIndex(channels, 0, 0, 0)
  {
  }

  lemma BuffersInBytes(buffers: nat, channels: nat)
    ensures Bytes(buffers * BLOCK_SIZE, channels) == buffers * Bytes(BLOCK_SIZE, channels)
    ensures Bytes(buffers * BLOCK_SIZE + BLOCK_SIZE, channels) == (buffers + 1) * Bytes(BLOCK_SIZE, channels)
    ensures buffers * BLOCK_SIZE % BLOCK_SIZE == 0
  {
    Signals.DivUnique(buffers * BLOCK_SIZE, BLOCK_SIZE, buffers, 0);
  }

  /** The whole buffers in the bytes there are, counted in byte groups. */
  lemma WholeBuffers(available: nat, channels: nat, groups: nat)
    requires channels >= 1 && available < Bytes(groups, channels) && Bytes(BLOCK_SIZE, channels) >= 1
    ensures var buffers := Buffers(available, Bytes(BLOCK_SIZE, channels));
      Bytes(buffers * BLOCK_SIZE, channels) == buffers * Bytes(BLOCK_SIZE, channels) <= available
      && available < Bytes(buffers * BLOCK_SIZE + BLOCK_SIZE, channels)
      && buffers * BLOCK_SIZE <= groups && buffers * BLOCK_SIZE % BLOCK_SIZE == 0
  {
    hide Bytes, Buffers;
    var buffers := Buffers(available, Bytes(BLOCK_SIZE, channels));
    BuffersInBytes(buffers, channels);
    BytesOrder(groups, buffers * BLOCK_SIZE, channels);
  }

  class DffFile {
    const data: seq<Byte>  // the file from the start of the sound data on
    const numChannels: nat
    const totalSoundDataBytes: nat
    const bufferSize: nat
    const inputBuffer: array<Byte>
    const samplTbl: array2<real>
    var filePosition: nat
    var eof: bool  // a read has come to the end of the file, which throws an exception
    var totalBytesRead: nat
    var endOfBlock: nat
    var bufferIndex: nat
    var currentBit: nat
    var currentChannel: nat
    ghost const totalGroups: nat  // the byte groups of the sound data
    ghost const readable: nat     // those that the file can give
    ghost var blockStart: nat     // the first byte group in the buffer
    ghost var blockEnd: nat       // the byte groups read so far
    ghost var group: nat          // the byte groups delivered so far
    ghost var delivered: nat      // the samples delivered so far

    ghost predicate Valid()
      reads this, inputBuffer, samplTbl
    {
      && Shape()
      && InFile()
      && currentBit < 8 && currentChannel < numChannels
      && delivered == SampleIndex(numChannels, group, currentBit, currentChannel)
      && if bufferIndex < endOfBlock then Loaded() && !eof else Drained()
    }

    ghost predicate Shape()
      reads this, samplTbl
    {
      && numChannels >= 1 && bufferSize == Bytes(BLOCK_SIZE, numChannels) == inputBuffer.Length
      && totalSoundDataBytes == Bytes(totalGroups, numChannels)
      && ReadableBytes() == Bytes(readable, numChannels) <= |data| && readable <= totalGroups
      && (if Short() then |data| < Bytes(readable + BLOCK_SIZE, numChannels) else readable == totalGroups)
      && samplTbl.Length0 == 256 && samplTbl.Length1 == 8
      && forall i, j :: 0 <= i < 256 && 0 <= j < 8 ==> samplTbl[i, j] == BitSample(i, BitInTurn(true, j))
    }

    /** The file holds fewer bytes than it announces. */
    predicate Short() {
      |data| < totalSoundDataBytes
    }

    /** What can be read: all of the sound data, or the whole buffers that a file cut short still fills. */
    ghost function ReadableBytes(): nat
      requires bufferSize >= 1
    {
      if Short() then Buffers(|data|, bufferSize) * bufferSize else totalSoundDataBytes
    }

    /** The file has been read up to a whole buffer, or to its end. */
    ghost predicate InFile()
      reads this
    {
      && totalBytesRead == Bytes(blockEnd, numChannels) && blockEnd <= readable
      && (if Short() then blockEnd % BLOCK_SIZE == readable % BLOCK_SIZE == 0 else !eof)
      && if eof then blockEnd == readable else filePosition == totalBytesRead
    }

    /** The buffer holds the byte groups from blockStart to blockEnd, and the read position stands at one of them. */
    ghost predicate Loaded()
      reads this, inputBuffer
    {
      && blockStart <= group < blockEnd
      && endOfBlock == Bytes(blockEnd - blockStart, numChannels) <= inputBuffer.Length
      && bufferIndex == Bytes(group - blockStart, numChannels)
      && Holds(blockStart, endOfBlock)
    }

    /** The buffer starts with the `n` bytes from byte group `start` on. */
    ghost predicate Holds(start: nat, n: nat)
      reads inputBuffer
    {
      && n <= inputBuffer.Length && Bytes(start, numChannels) + n <= |data|
      && forall i :: 0 <= i < n ==> inputBuffer[i] == data[Bytes(start, numChannels) + i]
    }

    ghost predicate Drained()
      reads this
    {
      group == blockEnd && currentBit == 0 && currentChannel == 0
    }

    constructor (data: seq<Byte>, numChannels: nat, totalSoundDataBytes: nat)
      requires numChannels >= 1 && totalSoundDataBytes % numChannels == 0
      ensures Valid() && delivered == 0 && !eof && fresh(inputBuffer) && fresh(samplTbl)
      ensures this.data == data && this.numChannels == numChannels && this.totalSoundDataBytes == totalSoundDataBytes
    {
      hide BitSample, Bytes, SampleIndex, Buffers;
      BytesAtStart(numChannels, totalSoundDataBytes);
      this.data := data;
      this.numChannels := numChannels;
      this.totalSoundDataBytes := totalSoundDataBytes;
      totalGroups := totalSoundDataBytes / numChannels;
      readable := if |data| < totalSoundDataBytes then Buffers(|data|, BLOCK_SIZE * numChannels) * BLOCK_SIZE
                  else totalSoundDataBytes / numChannels;
      var table := MakeTbl(true);
      samplTbl := table;
      bufferSize := BLOCK_SIZE * numChannels;
      inputBuffer := new Byte[BLOCK_SIZE * numChannels](_ => 0);
      filePosition, eof, totalBytesRead := 0, false, 0;
      endOfBlock, bufferIndex := BLOCK_SIZE * numChannels, BLOCK_SIZE * numChannels;
      currentBit, currentChannel := 0, 0;
      blockStart, blockEnd, group, delivered := 0, 0, 0, 0;
      new;
      if Short() { WholeBuffers(|data|, numChannels, totalGroups); }
    }

    /** While there is something readable, the next buffer can be filled, or is the last one of a whole file. */
    lemma BufferFits()
      requires Shape() && InFile() && blockEnd < readable
      ensures Bytes(blockEnd, numChannels) < Bytes(readable, numChannels)
      ensures Bytes(blockEnd + BLOCK_SIZE, numChannels) == Bytes(blockEnd, numChannels) + bufferSize
      ensures blockEnd + BLOCK_SIZE <= readable <==>
        Bytes(blockEnd, numChannels) + bufferSize <= Bytes(readable, numChannels)
      ensures Short() ==> blockEnd + BLOCK_SIZE <= readable && (blockEnd + BLOCK_SIZE) % BLOCK_SIZE == 0
    {
      hide Bytes, BitSample, Buffers;
      BytesOrder(blockEnd, readable, numChannels);
      BytesAdd(blockEnd, BLOCK_SIZE, numChannels);
      BytesOrder(blockEnd + BLOCK_SIZE, readable, numChannels);
      if Short() { NextMultiple(blockEnd, readable); }
    }

    /** readBlocks(): up to a buffer full of the bytes that remain; a read past the end of the file throws. */
    method ReadBlocks() returns (failed: bool, bytesRead: nat)
      requires Shape() && InFile()
      modifies this`filePosition, this`eof, this`totalBytesRead, this`blockStart, this`blockEnd, inputBuffer
      ensures Shape() && InFile()
      ensures blockStart == old(blockEnd) <= blockEnd
      ensures bytesRead == Bytes(blockEnd - blockStart, numChannels) <= inputBuffer.Length
      ensures blockEnd == old(blockEnd) <==> old(blockEnd) == readable
      ensures failed <==> old(blockEnd) == readable && Short() && !old(eof)
      ensures eof == (old(eof) || failed)
      ensures Holds(blockStart, bytesRead)
    {
      hide Bytes, BitSample;
      blockStart := blockEnd;
      BytesAdd(0, 0, numChannels);
      if eof {
        return false, 0;
      }
      BytesOrder(blockEnd, readable, numChannels);
      BytesAdd(blockEnd, totalGroups - blockEnd, numChannels);
      BytesAdd(blockEnd, BLOCK_SIZE, numChannels);
      if blockEnd < readable { BufferFits(); }
      var bytesRemaining := totalSoundDataBytes - totalBytesRead;
      var bytesToRead := if bufferSize < bytesRemaining then bufferSize else bytesRemaining;
      bytesRead := if bytesToRead <= |data| - filePosition then bytesToRead else |data| - filePosition;
      for i := 0 to bytesRead
        modifies inputBuffer
        invariant forall j :: 0 <= j < i ==> inputBuffer[j] == data[filePosition + j]
      {
        inputBuffer[i] := data[filePosition + i];
      }
      filePosition := filePosition + bytesRead;
      if bytesRead < bytesToRead {
        eof := true;
        return true, 0;
      }
      failed := false;
      totalBytesRead := totalBytesRead + bytesRead;
      blockEnd := if bufferSize < bytesRemaining then blockEnd + BLOCK_SIZE else totalGroups;
    }

    /** The byte for the current channel in the current byte group, and the bit in it. */
    lemma CurrentSample()
      requires Valid() && bufferIndex < endOfBlock
      ensures bufferIndex + currentChannel < endOfBlock
      ensures samplTbl[inputBuffer[bufferIndex + currentChannel], currentBit] ==
        IdealSample(data, numChannels, delivered)
    {
      SamplePlace(numChannels, group, currentBit, currentChannel);
      BytesOrder(group - blockStart, blockEnd - blockStart, numChannels);
      BytesAdd(blockStart, group - blockStart, numChannels);
      assert delivered / numChannels / 8 * numChannels == Bytes(group, numChannels);
    }

    lemma ReadableInFigures()
      requires Shape()
      ensures if totalSoundDataBytes <= |data| then ReadableBytes() == totalSoundDataBytes
              else ReadableBytes() <= |data| < ReadableBytes() + 4096 * numChannels
    {
      hide BitSample, Buffers;
      if Short() { BytesAdd(readable, BLOCK_SIZE, numChannels); }
    }

    lemma DeliveredBound()
      requires Valid()
      ensures delivered <= 8 * ReadableBytes()
      ensures Drained() && blockEnd == readable ==> delivered == 8 * ReadableBytes()
    {
      IndexBefore(numChannels, group, currentBit, currentChannel, readable);
      assert Drained() && blockEnd == readable ==> group == readable;
    }

    /** At the end of the buffer, more data is fetched; there may be none. */
    method Refill() returns (failed: bool, more: bool)
      requires Valid()
      modifies this, inputBuffer
      ensures Valid() && delivered == old(delivered)
      ensures if more then !failed && bufferIndex < endOfBlock else delivered == 8 * ReadableBytes()
      ensures failed <==> !more && Short() && !old(eof)
      ensures eof == (old(eof) || failed)
    {
      if bufferIndex < endOfBlock {
        return false, true;
      }
      var bytesRead;
      failed, bytesRead := ReadBlocks();
      BytesOrder(0, blockEnd - blockStart, numChannels);
      if !failed {
        endOfBlock := bytesRead;
      }
      if bytesRead == 0 {
        DeliveredBound();
        return failed, false;
      }
      bufferIndex := 0;
      more := true;
    }

    /**
     * read(): `count` samples, or as many as are left. `failed` stands for the exception thrown where a file cut short
     * ends.
     */
    method Read(buffer: array<real>, count: nat) returns (failed: bool, samplesRead: nat)
      requires Valid() && count <= buffer.Length && buffer != inputBuffer as object
      modifies this, inputBuffer, buffer
      ensures Valid() && samplesRead <= count && delivered == old(delivered) + samplesRead
      ensures samplesRead < count ==> delivered == 8 * ReadableBytes()
      ensures delivered <= 8 * ReadableBytes()
      ensures failed <==> samplesRead < count && Short() && !old(eof)
      ensures eof == (old(eof) || failed)
      ensures forall i :: 0 <= i < samplesRead ==> buffer[i] == IdealSample(data, numChannels, old(delivered) + i)
      ensures forall i :: samplesRead <= i < buffer.Length ==> buffer[i] == old(buffer[i])
    {
      hide IdealSample, SampleIndex, Bytes;
      failed, samplesRead := false, 0;
      for i := 0 to count
        invariant Valid() && samplesRead == i && delivered == old(delivered) + i && !failed && eof == old(eof)
        invariant forall j :: 0 <= j < i ==> buffer[j] == IdealSample(data, numChannels, old(delivered) + j)
        invariant forall j :: i <= j < buffer.Length ==> buffer[j] == old(buffer[j])
      {
        var more;
        failed, more := Refill();
        if !more {
          break;
        }
        CurrentSample();
        buffer[i] := samplTbl[inputBuffer[bufferIndex + currentChannel], currentBit];
        samplesRead := samplesRead + 1;
        Advance();
      }
      DeliveredBound();
    }

    /** testRead(): reading until nothing comes gives every sample that was left, in order. */
    method TestRead() returns (failed: bool, samplesExpected: nat, totalSamplesRead: nat, ghost stream: seq<real>)
      requires Valid()
      modifies this, inputBuffer
      ensures Valid() && delivered == 8 * ReadableBytes() == old(delivered) + |stream|
      ensures failed <==> |data| < totalSoundDataBytes && !old(eof)
      ensures if totalSoundDataBytes <= |data| then delivered == 8 * totalSoundDataBytes
              else delivered <= 8 * |data| < delivered + 8 * 4096 * numChannels
      ensures !failed ==> totalSamplesRead == |stream|
      // of a whole file, read from its start, all samples come that the header announces
      ensures samplesExpected == 8 * totalSoundDataBytes
      ensures old(delivered) == 0 && !old(eof) && !failed ==> totalSamplesRead == samplesExpected
      ensures forall i :: 0 <= i < |stream| ==> stream[i] == IdealSample(data, numChannels, old(delivered) + i)
    {
      hide IdealSample, SampleIndex, BitSample;
      ReadableInFigures();
      var sampleBuffer := new real[8192];
      samplesExpected, totalSamplesRead, stream := 8 * totalSoundDataBytes, 0, [];
      DeliveredBound();
      while true
        modifies this, inputBuffer, sampleBuffer
        invariant Valid() && delivered == old(delivered) + totalSamplesRead <= 8 * ReadableBytes() && eof == old(eof)
        invariant |stream| == totalSamplesRead
        invariant forall i :: 0 <= i < |stream| ==> stream[i] == IdealSample(data, numChannels, old(delivered) + i)
        decreases 8 * ReadableBytes() - delivered
      {
        var samplesRead;
        failed, samplesRead := Read(sampleBuffer, 8192);
        stream := stream + sampleBuffer[..samplesRead];
        if failed || samplesRead == 0 {
          break;
        }
        totalSamplesRead := totalSamplesRead + samplesRead;
      }
    }

    /** seek() to the start: the initial state again, whatever was read before. */
    method Rewind()
      requires Valid()
      modifies this
      ensures Valid() && delivered == 0 && !eof
    {
      hide Bytes, BitSample, Buffers, SampleIndex;
      BytesAtStart(numChannels, 0);
      totalBytesRead := 0;
      endOfBlock := bufferSize;
      bufferIndex := endOfBlock;
      currentBit := 0;
      currentChannel := 0;
      filePosition, eof := 0, false;
      blockStart, blockEnd, group, delivered := 0, 0, 0, 0;
    }

    /** The end of the loop body of read(): channels, then bits, then byte groups. */
    method Advance()
      requires Valid() && bufferIndex < endOfBlock
      modifies this`currentChannel, this`currentBit, this`bufferIndex, this`group, this`delivered
      ensures Valid() && delivered == old(delivered) + 1
    {
      NextSample(numChannels, group, currentBit, currentChannel);
      BytesAdd(group - blockStart, 1, numChannels);
      BytesOrder(group - blockStart + 1, blockEnd - blockStart, numChannels);
      delivered := delivered + 1;
      currentChannel := currentChannel + 1;
      if currentChannel == numChannels {
        currentChannel := 0;
        currentBit := currentBit + 1;
        if currentBit == 8 {
          currentBit := 0;
          bufferIndex := bufferIndex + numChannels;
          group := group + 1;
        }
      }
    }
  }
}

module DsfReader {
  import opened Bitstreams
  import Signals

  const MAX_CHANNELS: nat := 6

  /** Byte `i` of a channel's block: the blocks of a group follow each other, channel by channel. */
  function Address(channels: nat, blockSize: nat, block: nat, channel: nat, i: nat): nat {
    (block * channels + channel) * blockSize + i
  }

  /** Sample `k` of the ideal sequence, found in the file by its channel, its byte and its bit. */
  function IdealSample(data: seq<Byte>, channels: nat, blockSize: nat, msbFirst: bool, k: nat): real
    requires channels >= 1 && blockSize >= 1
  {
    var group := k / channels / 8;
    var at := Address(channels, blockSize, group / blockSize, k % channels, group % blockSize);
    if at < |data| then BitSample(data[at], BitInTurn(msbFirst, (k / channels) % 8)) else 0.0
  }

  /**
   * The ideal sequence holds every bit of every byte of every channel, at the place its byte, turn and channel
   * give.
   */
  lemma IdealSampleAt(data: seq<Byte>, channels: nat, blockSize: nat, msbFirst: bool,
                      block: nat, i: nat, bit: nat, channel: nat)
    requires bit < 8 && channel < channels && i < blockSize
    requires Address(channels, blockSize, block, channel, i) < |data|
    ensures Address(channels, blockSize, block, channel, i) == (block * channels + channel) * blockSize + i
    ensures SampleIndex(channels, block * blockSize + i, bit, channel)
         == ((block * blockSize + i) * 8 + bit) * channels + channel
    ensures IdealSample(data, channels, blockSize, msbFirst, SampleIndex(channels, block * blockSize + i, bit, channel))
         == BitSample(data[Address(channels, blockSize, block, channel, i)], if msbFirst then 7 - bit else bit)
  {
    SamplePlace(channels, block * blockSize + i, bit, channel);
    Signals.DivUnique(block * blockSize + i, blockSize, block, i);
  }

  /** The block of the next channel follows, and after the last channel the next group of blocks. */
  lemma NextBlock(channels: nat, blockSize: nat, block: nat, channel: nat)
    ensures Address(channels, blockSize, block, channel + 1, 0) ==
      Address(channels, blockSize, block, channel, blockSize) ==
        Address(channels, blockSize, block, channel, 0) + blockSize
    ensures Address(channels, blockSize, block, channels, 0) == Address(channels, blockSize, block + 1, 0, 0)
  {
  }

  lemma AddressInside(channels: nat, blockSize: nat, block: nat, channel: nat, blocks: nat)
    requires channel < channels && block < blocks
    ensures Address(channels, blockSize, block, channel, blockSize) <= Address(channels, blockSize, blocks, 0, 0)
  {
    Signals.MulMono(block + 1, blocks, channels);
    Signals.MulMono(block * channels + channel + 1, blocks * channels, blockSize);
  }

  /** Whole groups of blocks hold eight samples for every byte. */
  lemma SamplesInBlocks(channels: nat, blockSize: nat, blocks: nat)
    ensures SampleIndex(channels, blocks * blockSize, 0, 0) == 8 * Address(channels, blockSize, blocks, 0, 0)
  {
    calc {
      blocks * blockSize * 8 * channels;
      8 * (blocks * blockSize * channels);
      8 * (blocks * channels * blockSize);
    }
  }

  lemma AtStart(channels: nat, blockSize: nat)
    requires channels >= 1 && blockSize >= 1
    ensures channels * blockSize >= 1
    ensures Address(channels, blockSize, 0, 0, 0) == 0 == SampleIndex(channels, 0 * blockSize, 0, 0)
  {
    Signals.MulMono(1, channels, blockSize);
  }

  method NewBuffers(blockSize: nat) returns (buffers: seq<array<Byte>>)
    ensures |buffers| == MAX_CHANNELS && fresh(buffers)
    ensures forall n :: 0 <= n < MAX_CHANNELS ==> buffers[n].Length == blockSize
    ensures forall n, k :: 0 <= n < k < MAX_CHANNELS ==> buffers[n] != buffers[k]
  {
    buffers := [];
    for n := 0 to MAX_CHANNELS
      invariant |buffers| == n && fresh(buffers)
      invariant forall k :: 0 <= k < n ==> buffers[k].Length == blockSize
      invariant forall k, l :: 0 <= k < l < n ==> buffers[k] != buffers[l]
    {
      var buffer := new Byte[blockSize](_ => 0);
      buffers := buffers + [buffer];
    }
  }

  /** Groups of `size` bytes: `total` of them up to `end`, of which the bytes available hold `readable`. */
  lemma GroupsFit(available: nat, end: nat, size: nat, total: nat, readable: nat, block: nat)
    requires size >= 1 && total == Buffers(end + size - 1, size) && block <= readable
    requires readable == if available < total * size then Buffers(available, size) else total
    ensures block * size <= readable * size <= available && readable <= total
    ensures block * size < end <==> block < total
    ensures if block < readable then (block + 1) * size <= available
            else available < total * size ==> block < total && available < (block + 1) * size
  {
    hide Buffers;
    Signals.MulMono(block, readable, size);
    if readable > total { Signals.MulMono(total, readable, size); }
    if block < readable { Signals.MulMono(block + 1, readable, size); }
    if block < total { Signals.MulMono(block + 1, total, size); } else { Signals.MulMono(total, block, size); }
    assert (total + 1) * size == total * size + size && (block + 1) * size == block * size + size;
  }

  /** Whole groups up to an end, or beyond it. */
  lemma RoundedUp(end: nat, size: nat)
    requires size >= 1
    ensures var all := Buffers(end + size - 1, size) * size;
      end <= all < end + size && (all == end <==> end % size == 0)
  {
    var n := Buffers(end + size - 1, size);
    if n * size == end { Signals.DivUnique(end, size, n, 0); }
    if end % size == 0 {
      var q := end / size;
      assert end + size - 1 == q * size + (size - 1);
      Signals.DivUnique(end + size - 1, size, q, size - 1);
    }
  }

  lemma ManyChannels(frames: nat, groups: nat, channels: nat, blockSize: nat)
    requires channels >= 1
    ensures 8 * (groups * (channels * blockSize)) == frames * channels <==> frames == 8 * groups * blockSize
  {
    assert 8 * (groups * (channels * blockSize)) == (8 * groups * blockSize) * channels;
    if frames != 8 * groups * blockSize {
      assert (frames - 8 * groups * blockSize) * channels == frames * channels - (8 * groups * blockSize) * channels;
    }
  }

  /** A case: of 4097 bytes for each of two channels, 8192 are read. */
  lemma ReadsBeyondData(d: DsfFile)
    requires d.Shape() && d.numChannels == 2 && d.blockSize == 4096 && d.endOfData == 8194 && |d.data| >= 16384
    ensures !d.Short() && d.ReadableBytes() == 16384
  {
  }

  class DsfFile {
    const data: seq<Byte>  // the file from the start of the sound data on
    const numChannels: nat
    const blockSize: nat
    const endOfData: nat
    const numFrames: nat  // as the header has it
    const msbFirst: bool
    const samplTbl: array2<real>
    const channelBuffer: seq<array<Byte>>
    var filePosition: nat
    var fail: bool  // a read has come to the end of the file, which throws an exception
    var bufferIndex: nat
    var currentBit: nat
    var currentChannel: nat
    ghost const totalBlocks: nat  // the groups of blocks in the sound data
    ghost const readable: nat     // those that the file can give
    ghost var blocks: nat         // the groups of blocks read so far
    ghost var delivered: nat      // the samples delivered so far

    ghost predicate Valid()
      reads this, channelBuffer, samplTbl
    {
      && Shape()
      && InFile()
      && currentBit < 8 && currentChannel < numChannels && bufferIndex <= blockSize
      && delivered == SampleIndex(numChannels, Group(), currentBit, currentChannel)
      && if bufferIndex < blockSize then Loaded() && !fail else currentBit == 0 && currentChannel == 0
    }

    ghost predicate Shape()
      reads this, channelBuffer, samplTbl
    {
      && 1 <= numChannels <= MAX_CHANNELS == |channelBuffer| && blockSize >= 1
      && (forall c :: 0 <= c < MAX_CHANNELS ==> channelBuffer[c].Length == blockSize)
      && (forall c, d :: 0 <= c < d < MAX_CHANNELS ==> channelBuffer[c] != channelBuffer[d])
      && GroupSize() >= 1 && totalBlocks == Groups() && readable == ReadableGroups()
      && samplTbl.Length0 == 256 && samplTbl.Length1 == 8
      && forall i, j :: 0 <= i < 256 && 0 <= j < 8 ==> samplTbl[i, j] == BitSample(i, BitInTurn(msbFirst, j))
    }

    function NumSamples(): nat {
      numFrames * numChannels
    }

    /** The bytes in a group of blocks, one block for each channel. */
    function GroupSize(): nat {
      numChannels * blockSize
    }

    /** The groups of blocks up to the end of the data; the last of them may go beyond it. */
    ghost function Groups(): nat
      requires GroupSize() >= 1
    {
      Buffers(endOfData + GroupSize() - 1, GroupSize())
    }

    /** The file does not hold them all. */
    ghost predicate Short()
      requires GroupSize() >= 1
    {
      |data| < Groups() * GroupSize()
    }

    /** What can be read: all of them, or the whole groups in a file cut short. */
    ghost function ReadableGroups(): nat
      requires GroupSize() >= 1
    {
      if Short() then Buffers(|data|, GroupSize()) else Groups()
    }

    ghost function ReadableBytes(): nat
      requires GroupSize() >= 1
    {
      ReadableGroups() * GroupSize()
    }

    /** The file has been read up to the end of a group, or to its own end. */
    ghost predicate InFile()
      requires GroupSize() >= 1
      reads this
    {
      blocks <= readable && if fail then blocks == readable && Short() else filePosition == Start(blocks)
    }

    ghost function Start(block: nat): nat {
      Address(numChannels, blockSize, block, 0, 0)
    }

    /** The byte group at the read position. */
    ghost function Group(): nat
      reads this
    {
      if bufferIndex < blockSize && blocks >= 1 then (blocks - 1) * blockSize + bufferIndex else blocks * blockSize
    }

    /** The channel buffers hold the group of blocks read last. */
    ghost predicate Loaded()
      requires numChannels <= |channelBuffer|
      reads this, channelBuffer
    {
      && blocks >= 1
      && forall c :: 0 <= c < numChannels ==> HoldsBlock(channelBuffer[c], blocks - 1, c)
    }

    ghost predicate HoldsBlock(buffer: array<Byte>, block: nat, c: nat)
      reads buffer
    {
      && buffer.Length == blockSize && Address(numChannels, blockSize, block, c, blockSize) <= |data|
      && buffer[..] == data[Address(numChannels, blockSize, block, c, 0)..][..blockSize]
    }

    constructor (data: seq<Byte>, numChannels: nat, blockSize: nat, endOfData: nat, numFrames: nat, msbFirst: bool)
      requires 1 <= numChannels <= MAX_CHANNELS && blockSize >= 1
      ensures Valid() && delivered == 0 && !fail && fresh(channelBuffer) && fresh(samplTbl)
      ensures this.data == data && this.numChannels == numChannels && this.blockSize == blockSize
      ensures this.endOfData == endOfData && this.numFrames == numFrames && this.msbFirst == msbFirst
    {
      hide BitSample, Buffers, SampleIndex, Address;
      AtStart(numChannels, blockSize);
      this.data, this.numChannels, this.blockSize := data, numChannels, blockSize;
      this.endOfData, this.numFrames, this.msbFirst := endOfData, numFrames, msbFirst;
      ghost var size := numChannels * blockSize;
      ghost var wanted := Buffers(endOfData + size - 1, size);
      totalBlocks := wanted;
      readable := if |data| < wanted * size then Buffers(|data|, size) else wanted;
      var table := MakeTbl(msbFirst);
      samplTbl := table;
      var buffers := NewBuffers(blockSize);
      channelBuffer := buffers;
      filePosition, fail, bufferIndex, currentBit, currentChannel := 0, false, blockSize, 0, 0;
      blocks, delivered := 0, 0;
    }

    lemma StartAt(block: nat)
      ensures Start(block) == block * GroupSize()
    {
      assert block * numChannels * blockSize == block * (numChannels * blockSize);
    }

    /** How far the data and the file reach, seen from group `block` of those that can be read. */
    lemma GroupBounds(block: nat)
      requires Shape() && block <= readable
      ensures Start(readable) == ReadableBytes() <= |data| && readable <= totalBlocks
      ensures Start(block) <= |data| && (Start(block) < endOfData <==> block < totalBlocks)
      ensures if block < readable then Start(block + 1) <= |data|
              else Short() ==> block < totalBlocks && |data| < Start(block + 1)
      ensures block == readable && !Short() ==> block == totalBlocks
    {
      hide Buffers, BitSample, Address, GroupSize;
      StartAt(block);
      StartAt(block + 1);
      StartAt(readable);
      GroupsFit(|data|, endOfData, GroupSize(), totalBlocks, readable, block);
    }

    /** readBlocks(): one block into each channel buffer, or nothing at the end of the data. */
    method ReadBlocks() returns (failed: bool, bytesRead: nat)
      requires Shape() && InFile()
      modifies this`filePosition, this`fail, this`blocks, channelBuffer
      ensures Shape() && InFile()
      ensures failed <==> old(blocks) == readable && Short()
      ensures fail == (old(fail) || failed)
      ensures old(blocks) == readable ==> bytesRead == 0 && blocks == old(blocks)
      ensures old(blocks) < readable ==> bytesRead == blockSize && blocks == old(blocks) + 1 && Loaded()
    {
      hide Address, BitSample, Buffers, GroupSize, Groups, Short, ReadableGroups;
      GroupBounds(blocks);
      if fail {
        return true, 0;
      }
      if filePosition >= endOfData {
        return false, 0;
      }
      for ch := 0 to numChannels
        modifies this`filePosition, this`fail, channelBuffer
        invariant Shape() && !fail && filePosition == Address(numChannels, blockSize, blocks, ch, 0) <= |data|
        invariant forall c :: 0 <= c < ch ==> HoldsBlock(channelBuffer[c], blocks, c)
      {
        NextBlock(numChannels, blockSize, blocks, ch);
        AddressInside(numChannels, blockSize, blocks, ch, blocks + 1);
        ReadBlock(channelBuffer[ch], ch);
        if fail {
          return true, 0;
        }
      }
      NextBlock(numChannels, blockSize, blocks, 0);
      blocks := blocks + 1;
      return false, blockSize;
    }

    /** read() of the file stream: the next blockSize bytes, or as many as there are, and then it fails. */
    method ReadBlock(buffer: array<Byte>, ch: nat)
      requires buffer.Length == blockSize && !fail
      requires filePosition == Address(numChannels, blockSize, blocks, ch, 0) <= |data|
      modifies this`filePosition, this`fail, buffer
      ensures fail <==> |data| < Address(numChannels, blockSize, blocks, ch, blockSize)
      ensures !fail ==> HoldsBlock(buffer, blocks, ch) && filePosition == old(filePosition) + blockSize
    {
      var bytes := if blockSize <= |data| - filePosition then blockSize else |data| - filePosition;
      for i := 0 to bytes
        modifies buffer
        invariant forall j :: 0 <= j < i ==> buffer[j] == data[filePosition + j]
      {
        buffer[i] := data[filePosition + i];
      }
      filePosition := filePosition + bytes;
      fail := bytes < blockSize;
    }

    /** The table entry for the byte at the read position is the sample due. */
    lemma CurrentSample()
      requires Valid() && bufferIndex < blockSize
      ensures samplTbl[channelBuffer[currentChannel][bufferIndex], currentBit]
           == IdealSample(data, numChannels, blockSize, msbFirst, delivered)
    {
      SamplePlace(numChannels, Group(), currentBit, currentChannel);
      Signals.DivUnique(Group(), blockSize, blocks - 1, bufferIndex);
      var byte := channelBuffer[currentChannel][bufferIndex];
      assert HoldsBlock(channelBuffer[currentChannel], blocks - 1, currentChannel);
      assert byte == channelBuffer[currentChannel][..][bufferIndex]
          == data[Address(numChannels, blockSize, blocks - 1, currentChannel, 0)..][..blockSize][bufferIndex]
          == data[Address(numChannels, blockSize, blocks - 1, currentChannel, bufferIndex)];
    }

    /** The reader goes on to the end of the last group of blocks: that is the end of the data only if it is full. */
    lemma EndsWithDataIff()
      requires Shape() && !Short()
      ensures endOfData <= ReadableBytes() < endOfData + GroupSize()
      ensures ReadableBytes() == endOfData <==> endOfData % GroupSize() == 0
    {
      hide BitSample;
      RoundedUp(endOfData, GroupSize());
    }

    /** The number of samples in the header is the number delivered exactly if its frames fill the last group. */
    lemma ExpectedIff()
      requires Shape() && !Short()
      ensures 8 * ReadableBytes() == NumSamples() <==> numFrames == 8 * Groups() * blockSize
    {
      hide BitSample, Buffers;
      ManyChannels(numFrames, Groups(), numChannels, blockSize);
    }

    lemma ReadableInFigures()
      requires Shape()
      ensures if Short() then ReadableBytes() <= |data| < ReadableBytes() + numChannels * blockSize
              else endOfData <= ReadableBytes() < endOfData + numChannels * blockSize
    {
      hide BitSample, Address;
      if Short() { NextMultiple(Buffers(|data|, GroupSize()), GroupSize()); } else { EndsWithDataIff(); }
    }

    lemma NextMultiple(n: nat, size: nat)
      ensures (n + 1) * size == n * size + size
    {
    }

    lemma DeliveredBound()
      requires Valid()
      ensures delivered <= 8 * ReadableBytes()
      ensures bufferIndex == blockSize && blocks == readable ==> delivered == 8 * ReadableBytes()
    {
      hide Address, Buffers;
      GroupBounds(blocks);
      SamplesInBlocks(numChannels, blockSize, readable);
      Signals.MulMono(blocks, readable, blockSize);
      IndexBefore(numChannels, Group(), currentBit, currentChannel, readable * blockSize);
    }

    /**
     * read(): `count` samples, or as many as are left. `failed` stands for the exception thrown where a file cut short
     * ends.
     */
    method Read(buffer: array<real>, count: nat) returns (failed: bool, samplesRead: nat)
      requires Valid() && count <= buffer.Length && forall b <- channelBuffer :: b as object != buffer
      modifies this, channelBuffer, buffer
      ensures Valid() && samplesRead <= count && delivered == old(delivered) + samplesRead
      ensures samplesRead < count ==> delivered == 8 * ReadableBytes()
      ensures delivered <= 8 * ReadableBytes()
      ensures failed <==> samplesRead < count && Short()
      ensures forall i :: 0 <= i < samplesRead ==>
        buffer[i] == IdealSample(data, numChannels, blockSize, msbFirst, old(delivered) + i)
      ensures forall i :: samplesRead <= i < buffer.Length ==> buffer[i] == old(buffer[i])
    {
      hide IdealSample, SampleIndex, Address, BitSample, Groups, Short, ReadableGroups, GroupSize;
      failed, samplesRead := false, 0;
      for i := 0 to count
        invariant Valid() && samplesRead == i && delivered == old(delivered) + i && !failed
        invariant forall j :: 0 <= j < i ==>
          buffer[j] == IdealSample(data, numChannels, blockSize, msbFirst, old(delivered) + j)
        invariant forall j :: i <= j < buffer.Length ==> buffer[j] == old(buffer[j])
      {
        var more;
        failed, more := Refill();
        if !more {
          break;
        }
        CurrentSample();
        buffer[i] := samplTbl[channelBuffer[currentChannel][bufferIndex], currentBit];
        samplesRead := samplesRead + 1;
        Advance();
      }
      DeliveredBound();
    }

    /** At the end of the channel buffers, more data is fetched; there may be none. */
    method Refill() returns (failed: bool, more: bool)
      requires Valid()
      modifies this, channelBuffer
      ensures Valid() && delivered == old(delivered)
      ensures if more then !failed && bufferIndex < blockSize else delivered == 8 * ReadableBytes()
      ensures failed <==> !more && Short()
    {
      hide Groups, Short, ReadableGroups, GroupSize, BitSample, Address;
      if bufferIndex < blockSize {
        return false, true;
      }
      DeliveredBound();
      var bytesRead;
      failed, bytesRead := ReadBlocks();
      if bytesRead == 0 {
        return failed, false;
      }
      bufferIndex := 0;
      more := true;
    }

    /** The end of the loop body of read(): channels, then bits, then bytes. */
    method Advance()
      requires Valid() && bufferIndex < blockSize
      modifies this`currentChannel, this`currentBit, this`bufferIndex, this`delivered
      ensures Valid() && delivered == old(delivered) + 1
    {
      hide SampleIndex, BitSample, Address, HoldsBlock;
      NextSample(numChannels, Group(), currentBit, currentChannel);
      delivered := delivered + 1;
      currentChannel := currentChannel + 1;
      if currentChannel == numChannels {
        currentChannel := 0;
        currentBit := currentBit + 1;
        if currentBit == 8 {
          currentBit := 0;
          bufferIndex := bufferIndex + 1;
        }
      }
    }

    /** testRead(): reading until nothing comes gives every sample that was left, in order. */
    method TestRead() returns (failed: bool, samplesExpected: nat, totalSamplesRead: nat, ghost stream: seq<real>)
      requires Valid()
      modifies this, channelBuffer
      ensures Valid() && delivered == 8 * ReadableBytes() == old(delivered) + |stream|
      ensures failed <==> Short()
      ensures if failed then delivered <= 8 * |data| < delivered + 8 * (numChannels * blockSize)
              else 8 * endOfData <= delivered < 8 * endOfData + 8 * (numChannels * blockSize)
      ensures !failed ==> totalSamplesRead == |stream|
      // what the header announces comes, from the start on, if it fills the last group of blocks
      ensures samplesExpected == NumSamples()
      ensures old(delivered) == 0 && !failed ==>
        (totalSamplesRead == samplesExpected <==> numFrames == 8 * Groups() * blockSize)
      ensures forall i :: 0 <= i < |stream| ==>
        stream[i] == IdealSample(data, numChannels, blockSize, msbFirst, old(delivered) + i)
    {
      hide IdealSample, SampleIndex, BitSample, Address, Groups, Short, ReadableGroups, GroupSize;
      var sampleBuffer := new real[8192];
      samplesExpected, totalSamplesRead, stream := NumSamples(), 0, [];
      ReadableInFigures();
      if !Short() { ExpectedIff(); }
      DeliveredBound();
      while true
        modifies this, channelBuffer, sampleBuffer
        invariant Valid() && delivered == old(delivered) + totalSamplesRead <= 8 * ReadableBytes()
        invariant |stream| == totalSamplesRead
        invariant forall i :: 0 <= i < |stream| ==>
          stream[i] == IdealSample(data, numChannels, blockSize, msbFirst, old(delivered) + i)
        decreases 8 * ReadableBytes() - delivered
      {
        var samplesRead;
        failed, samplesRead := Read(sampleBuffer, 8192);
        stream := stream + sampleBuffer[..samplesRead];
        if failed || samplesRead == 0 {
          break;
        }
        totalSamplesRead := totalSamplesRead + samplesRead;
      }
    }

    /** seek() to the start: the initial state again, whatever was read before. */
    method Rewind()
      requires Valid()
      modifies this
      ensures Valid() && delivered == 0 && !fail
    {
      bufferIndex := blockSize;
      currentBit := 0;
      currentChannel := 0;
      filePosition, fail := 0, false;
      blocks, delivered := 0, 0;
    }
  }
}
