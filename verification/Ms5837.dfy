/** The pressure sensor object: it reads its calibration words and checks their CRC. */
module Ms5837 {
  import opened BitwiseIntegers
  import opened Iteration
  import opened Crc4

  lemma RoundIsStep(now: nat, next: nat)
    requires next == if Top(now) then Xor(2 * now, 0x3000) else 2 * now
    ensures next == StepBig(now)
  {
    XorZero(2 * now);
  }

  lemma OneMoreRound(fed: nat, count: nat, now: nat, next: nat)
    requires StepsBig(fed, count) == now && next == StepBig(now)
    ensures StepsBig(fed, count + 1) == next
  {
    IterateOneMore(StepBig, fed, count, now);
  }

  class MS5837 {
    var calibration: Words

    /** One round. */
    static method Round(now: nat) returns (next: nat)
      ensures next == StepBig(now)
    {
      if Shr(now, 15) % 2 == 1 {
        next := Xor(2 * now, 0x3000);
      } else {
        next := 2 * now;
      }
      RoundIsStep(now, next);
    }

    /** The inner loop: eight rounds. */
    static method ShiftByte(fed: nat) returns (remainder: nat)
      ensures remainder == StepsBig(fed, 8)
    {
      remainder := fed;
      ghost var done: nat := 0;
      for bit := 8 downto 0
        invariant done == 8 - bit && remainder == StepsBig(fed, done)
      {
        ghost var before := remainder;
        remainder := Round(remainder);
        OneMoreRound(fed, done, before, remainder);
        done := done + 1;
      }
    }

    /** The outer loop: the sixteen bytes of the words in turn. */
    static method Divide(words: Words) returns (remainder: nat)
      requires |words| == 8
      ensures remainder == RunBig(Bytes(words))
    {
      remainder := 0;
      ghost var bytes := Bytes(words);
      for i := 0 to 16
        invariant remainder == RunBig(bytes[..i])
      {
        FoldOneMore(FeedBig, bytes, i);
        if i % 2 == 1 {
          remainder := Xor(remainder, Low(words[i / 2], 8));
        } else {
          remainder := Xor(remainder, Shr(words[i / 2], 8));
        }
        remainder := ShiftByte(remainder);
      }
      assert bytes[..16] == bytes;
    }

    /** Edits the list it is given: clears the stored CRC in its first word and appends a word. */
    method Crc4() returns (crc: nat)
      requires |calibration| == 7
      modifies this
      ensures crc == Crc4Of(old(calibration)) && calibration == Prepared(old(calibration))
    {
      calibration := calibration[0 := Low(calibration[0], 12)];
      calibration := calibration + [0];
      assert calibration == Prepared(old(calibration));
      var remainder := Divide(calibration);
      crc := Low(Shr(remainder, 12), 4);
    }

    /** Reads the seven words as the bus delivers them, low byte first. */
    method ReadProm(words: seq<nat>)
      requires |words| == 7
      modifies this
      ensures calibration == Swapped(words)
    {
      calibration := [];
      for i := 0 to 7
        invariant calibration == Swapped(words[..i])
      {
        assert words[..i + 1] == words[..i] + [words[i]];
        calibration := calibration + [Swap(words[i])];
      }
      assert words[..7] == words;
    }

    /** Accepts the sensor exactly if its words are accepted; its calibration list is the edited one. */
    method Init(words: seq<nat>) returns (ok: bool)
      requires |words| == 7
      modifies this
      ensures ok <==> Accepted(Swapped(words))
      ensures calibration == Prepared(Swapped(words))
    {
      ReadProm(words);
      var stored := Low(Shr(calibration[0], 12), 4);
      var computed := Crc4();
      ok := stored == computed;
    }
  }

  /** The two bytes of a word exchanged. */
  function Swap(word: nat): nat {
    Shl(Low(word, 8), 8) + Shr(word, 8)
  }

  /** The low byte moves up and the high byte down. */
  lemma SwapExchanges(word: nat, high: nat, low: nat)
    requires high < 0x100 && low < 0x100 && word == 256 * high + low
    ensures Swap(word) == 256 * low + high
  {
    PowersOfTwo();
    ShlConstants(high);
    ShlConstants(low);
    SplitIsUnique(word, high, low, 8);
  }

  /** Exchanging them again restores the word. */
  lemma SwapTwice(word: nat)
    requires word < 0x1_0000
    ensures Swap(word) < 0x1_0000 && Swap(Swap(word)) == word
  {
    PowersOfTwo();
    Split(word, 8);
    ShlConstants(Low(word, 8));
    ShlConstants(Shr(word, 8));
    SplitIsUnique(Swap(word), Low(word, 8), Shr(word, 8), 8);
  }

  function Swapped(words: seq<nat>): (r: Words)
    ensures |r| == |words| && forall i :: 0 <= i < |words| ==> r[i] == Swap(words[i])
  {
    seq(|words|, i requires 0 <= i < |words| => Swap(words[i]))
  }
}
