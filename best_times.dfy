/**
 * `BestTimesManager`: the fastest completion time per grid size, kept in a
 * key-value store (the source's `UserDefaults`, here a map from key to
 * whole seconds), and the `MM:SS` rendering of a time.
 */
module BestTimes {
  import opened Wrappers
  import opened Decimal
  import opened Operations

  /** `bestTimeKey(for:)`: `"bestTime_NxN"`. */
  function BestTimeKey(size: int): (key: string)
    ensures var n := |IntToString(size)|;
      && |key| == 10 + 2 * n && key[..9] == "bestTime_" && key[9 + n] == 'x'
      && key[9..9 + n] == IntToString(size) && key[10 + n..] == IntToString(size)
  {
    "bestTime_" + IntToString(size) + "x" + IntToString(size)
  }

  lemma NoLetterX(i: int)
    ensures 'x' !in IntToString(i)
  {
  }

  /** Different sizes have different keys, so each size has its own record. */
  lemma BestTimeKeyInjective(a: int, b: int)
    requires BestTimeKey(a) == BestTimeKey(b)
    ensures a == b
  {
    var sa, sb := IntToString(a), IntToString(b);
    var ta, tb := sa + "x" + sa, sb + "x" + sb;
    assert ta == BestTimeKey(a)[9..] && tb == BestTimeKey(b)[9..];
    NoLetterX(a);
    NoLetterX(b);
    if |sa| < |sb| {
      assert false;
    } else if |sb| < |sa| {
      assert false;
    } else {
      assert sa == ta[..|sa|] && sb == tb[..|sb|];
    }
    IntToStringInjective(a, b);
  }

  /** `userDefaults.double(forKey:)`: the stored value, 0 when the key is absent. */
  function Stored(store: map<string, int>, key: string): (time: int)
    ensures key in store ==> time == store[key]
    ensures key !in store ==> time == 0
  {
    if key in store then store[key] else 0
  }

  /** `getBestTime(for:)`: the stored time, unless it is absent or not positive. */
  function BestTimeIn(store: map<string, int>, size: int): (best: Option<int>)
    ensures best.Some? <==> BestTimeKey(size) in store && store[BestTimeKey(size)] > 0
    ensures best.Some? ==> best.value == store[BestTimeKey(size)] && best.value > 0
  {
    var time := Stored(store, BestTimeKey(size));
    if time > 0 then Some(time) else None
  }

  /** `isNewBestTime(for:time:)`: there is no record yet, or `time` beats it. */
  predicate IsNewBestIn(store: map<string, int>, size: int, time: int)
    ensures IsNewBestIn(store, size, time) <==>
      var key := BestTimeKey(size);
      key !in store || store[key] <= 0 || time < store[key]
  {
    match BestTimeIn(store, size)
    case None => true
    case Some(currentBest) => time < currentBest
  }

  /** The store after `updateBestTime(for:time:)`: `time` is written exactly when it is a new best. */
  function AfterUpdate(store: map<string, int>, size: int, time: int): (after: map<string, int>)
    ensures after.Keys == store.Keys + (if IsNewBestIn(store, size, time) then {BestTimeKey(size)} else {})
    ensures forall key :: key in store && key != BestTimeKey(size) ==> after[key] == store[key]
    ensures BestTimeKey(size) in after ==>
      after[BestTimeKey(size)] == if IsNewBestIn(store, size, time) then time else store[BestTimeKey(size)]
  {
    if IsNewBestIn(store, size, time) then store[BestTimeKey(size) := time] else store
  }

  /** The keys `resetAllBestTimes` removes: those of sizes 3 to 9. */
  function PlayableKeys(): set<string>
  {
    set size | 3 <= size <= 9 :: BestTimeKey(size)
  }

  /**
   * A new best that is a real time becomes the record; anything else leaves
   * the store as it was.
   */
  lemma UpdateRecordsNewBest(store: map<string, int>, size: int, time: int)
    ensures IsNewBestIn(store, size, time) && time > 0 ==> BestTimeIn(AfterUpdate(store, size, time), size) == Some(time)
    ensures !IsNewBestIn(store, size, time) ==> AfterUpdate(store, size, time) == store
  {
  }

  /** A record only ever improves when times are positive. */
  lemma UpdateNeverWorsens(store: map<string, int>, size: int, time: int)
    requires time > 0 && BestTimeIn(store, size).Some?
    ensures BestTimeIn(AfterUpdate(store, size, time), size).Some?
    ensures BestTimeIn(AfterUpdate(store, size, time), size).value <= BestTimeIn(store, size).value
    ensures BestTimeIn(AfterUpdate(store, size, time), size).value == Min(time, BestTimeIn(store, size).value)
  {
  }

  /** Updating one size leaves the record of every other size as it was. */
  lemma UpdateKeepsOtherSizes(store: map<string, int>, size: int, time: int, other: int)
    requires other != size
    ensures BestTimeIn(AfterUpdate(store, size, time), other) == BestTimeIn(store, other)
  {
    if BestTimeKey(other) == BestTimeKey(size) {
      BestTimeKeyInjective(other, size);
    }
  }

  /** Removing one size's key leaves every other size's record as it was. */
  lemma ResetKeepsOtherSizes(store: map<string, int>, size: int, other: int)
    requires other != size
    ensures BestTimeIn(store - {BestTimeKey(size)}, other) == BestTimeIn(store, other)
  {
    if BestTimeKey(other) == BestTimeKey(size) {
      BestTimeKeyInjective(other, size);
    }
  }

  /** Removing the keys of sizes 3 to 9 leaves every other size's record as it was. */
  lemma ResetAllKeepsOtherSizes(store: map<string, int>, other: int)
    requires other < 3 || 9 < other
    ensures BestTimeIn(store - PlayableKeys(), other) == BestTimeIn(store, other)
  {
    if BestTimeKey(other) in PlayableKeys() {
      var size :| 3 <= size <= 9 && BestTimeKey(size) == BestTimeKey(other);
      BestTimeKeyInjective(size, other);
    }
  }

  /** The sequence of updates the best-time behaviour is usually explained with. */
  lemma UpdateExample(store: map<string, int>)
    requires BestTimeIn(store, 4) == None
    ensures var s1 := AfterUpdate(store, 4, 30);
            var s2 := AfterUpdate(s1, 4, 45);
            var s3 := AfterUpdate(s2, 4, 20);
            BestTimeIn(s1, 4) == Some(30) && BestTimeIn(s2, 4) == Some(30) && BestTimeIn(s3, 4) == Some(20)
  {
  }

  /** `formatTime`: minutes and seconds by truncating division by 60, each `%02d`. */
  function FormatTime(time: int): (text: string)
    ensures |text| >= 5
    ensures time >= 0 ==> text[|text| - 3] == ':'
  {
    Pad2(TruncDiv(time, 60)) + ":" + Pad2(TruncRem(time, 60))
  }

  /**
   * For a non-negative time, the text is a run of at least two digits,
   * a colon and exactly two digits, which read back as minutes and
   * seconds: seconds below 60, and minutes times 60 plus seconds is the time.
   */
  lemma FormatTimeReadsBack(time: int)
    requires time >= 0
    ensures var text := FormatTime(time);
      && |text| >= 5 && text[|text| - 3] == ':'
      && AllDigits(text[..|text| - 3]) && AllDigits(text[|text| - 2..])
      && DigitsValue(text[|text| - 2..]) < 60
      && DigitsValue(text[..|text| - 3]) * 60 + DigitsValue(text[|text| - 2..]) == time
      && |text[..|text| - 3]| == Max(2, |IntToString(time / 60)|)
  {
    var minutes, seconds := TruncDiv(time, 60), TruncRem(time, 60);
    assert minutes == time / 60 && seconds == time % 60;
    var m, s := Pad2(minutes), Pad2(seconds);
    assert |s| == 2 by {
      if seconds >= 10 {
        assert NatToString(seconds) == NatToString(seconds / 10) + [DigitChar(seconds % 10)];
      }
    }
    var text := FormatTime(time);
    assert text == m + ":" + s;
    assert text[..|text| - 3] == m && text[|text| - 2..] == s;
  }

  lemma FormatTimeExamples()
    ensures FormatTime(125) == "02:05"
    ensures FormatTime(59) == "00:59"
  {
    assert TruncDiv(125, 60) == 2 && TruncRem(125, 60) == 5;
    assert TruncDiv(59, 60) == 0 && TruncRem(59, 60) == 59;
    assert NatToString(59) == NatToString(5) + [DigitChar(9)];
  }

  class BestTimesManager {
    /** The key-value store behind the records. */
    var store: map<string, int>

    constructor (stored: map<string, int>)
      ensures store == stored
    {
      store := stored;
    }

    function GetBestTime(size: int): (best: Option<int>)
      reads this
      ensures best.Some? <==> BestTimeKey(size) in store && store[BestTimeKey(size)] > 0
      ensures best.Some? ==> best.value == store[BestTimeKey(size)]
    {
      BestTimeIn(store, size)
    }

    function IsNewBestTime(size: int, time: int): (isNew: bool)
      reads this
      ensures isNew <==> BestTimeIn(store, size).None? || time < BestTimeIn(store, size).value
    {
      IsNewBestIn(store, size, time)
    }

    /**
     * `updateBestTime(for:time:)`: writes `time` when there is no record or
     * it beats the record.  No other size's record changes.
     */
    method UpdateBestTime(size: int, time: int)
      modifies this
      ensures store == AfterUpdate(old(store), size, time)
      ensures old(IsNewBestTime(size, time)) && time > 0 ==> GetBestTime(size) == Some(time)
      ensures forall other :: other != size ==> GetBestTime(other) == old(GetBestTime(other))
    {
      var key := BestTimeKey(size);
      match GetBestTime(size) {
        case Some(currentBest) =>
          if time < currentBest {
            store := store[key := time];
          }
        case None =>
          store := store[key := time];
      }
      UpdateRecordsNewBest(old(store), size, time);
      forall other | other != size
        ensures BestTimeIn(store, other) == BestTimeIn(old(store), other)
      {
        UpdateKeepsOtherSizes(old(store), size, time, other);
      }
    }

    /** `resetBestTime(for:)`: removes the size's key; the size then has no record. */
    method ResetBestTime(size: int)
      modifies this
      ensures store == old(store) - {BestTimeKey(size)}
      ensures GetBestTime(size) == None
      ensures forall other :: other != size ==> GetBestTime(other) == old(GetBestTime(other))
    {
      store := store - {BestTimeKey(size)};
      forall other | other != size
        ensures BestTimeIn(store, other) == BestTimeIn(old(store), other)
      {
        ResetKeepsOtherSizes(old(store), size, other);
      }
    }

    /** `resetAllBestTimes`: resets sizes 3 through 9; every other key stays. */
    method ResetAllBestTimes()
      modifies this
      ensures store == old(store) - PlayableKeys()
      ensures forall size :: 3 <= size <= 9 ==> GetBestTime(size) == None
      ensures forall other :: (other < 3 || 9 < other) ==> GetBestTime(other) == old(GetBestTime(other))
    {
      ghost var removed: set<string> := {};
      for size := 3 to 10
        invariant removed == set s | 3 <= s < size :: BestTimeKey(s)
        invariant store == old(store) - removed
      {
        ResetBestTime(size);
        removed := removed + {BestTimeKey(size)};
      }
      assert removed == PlayableKeys();
      forall other | other < 3 || 9 < other
        ensures BestTimeIn(store, other) == BestTimeIn(old(store), other)
      {
        ResetAllKeepsOtherSizes(old(store), other);
      }
    }
  }
}
