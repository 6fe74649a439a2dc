/**
 * Core.Mvvm.BaseViewModel: the IsLoading flag, kept as a nesting counter so
 * that overlapping operations can each raise and lower it.
 */
module Loading {
  import opened Notification

  /** A C# int. */
  newtype int32 = x: int | -0x8000_0000 <= x < 0x8000_0000

  const IntMax: int32 := 0x7FFF_FFFF
  const IntMin: int32 := -0x8000_0000

  /** The name the IsLoading setter announces. */
  const IsLoadingProp: string := "IsLoading"

  /**
   * The counter after one assignment to IsLoading: true increments it (an
   * unchecked C# increment, so IntMax wraps to IntMin), false decrements it
   * only while it is positive.
   */
  function NextCounter(c: int32, value: bool): (r: int32)
    ensures value && c < IntMax ==> r as int == c as int + 1
    ensures !value ==> r <= c
    ensures 0 <= c && (value ==> c < IntMax) ==> 0 <= r
  {
    if value then (if c == IntMax then IntMin else c + 1)
    else if c > 0 then c - 1
    else c
  }

  /** The counter after a sequence of assignments, from c. */
  function CounterAfter(c: int32, sets: seq<bool>): int32
    decreases sets
  {
    if sets == [] then c else CounterAfter(NextCounter(c, sets[0]), sets[1..])
  }

  function Repeat(value: bool, n: nat): (r: seq<bool>)
    ensures |r| == n && forall i | 0 <= i < n :: r[i] == value
  {
    if n == 0 then [] else [value] + Repeat(value, n - 1)
  }

  class BaseViewModel {
    var loadingCounter: int32
    /** The notification part this view model inherits. */
    const events: NotifyPropertyChanged

    constructor ()
      ensures loadingCounter == 0 && !IsLoading()
      ensures fresh(events) && events.dependencies == [] && events.log == []
    {
      loadingCounter := 0;
      events := new NotifyPropertyChanged();
    }

    /** The IsLoading getter. */
    function IsLoading(): bool
      reads this
    {
      loadingCounter > 0
    }

    /** The IsLoading setter: updates the counter, then announces IsLoading whatever the value. */
    method SetIsLoading(value: bool, ghost rank: map<string, nat>)
      requires IsLoadingProp in rank && Ranked(events.dependencies, rank)
      modifies this`loadingCounter, events`log
      ensures loadingCounter == NextCounter(old(loadingCounter), value)
      ensures IsLoading() <==> NextCounter(old(loadingCounter), value) > 0
      ensures events.log == old(events.log) + Raised(events.dependencies, IsLoadingProp, rank)
    {
      if value {
        loadingCounter := if loadingCounter == IntMax then IntMin else loadingCounter + 1;
      } else if loadingCounter > 0 {
        loadingCounter := loadingCounter - 1;
      }
      events.RaisePropertyChanged(IsLoadingProp, rank);
    }
  }

  // ---------------------------------------------------------------------------
  // Properties of the counter

  /** Concatenated assignment sequences run one after the other. */
  lemma {:induction false} CounterAfterConcat(c: int32, a: seq<bool>, b: seq<bool>)
    ensures CounterAfter(c, a + b) == CounterAfter(CounterAfter(c, a), b)
    decreases a
  {
    if a == [] {
      assert a + b == b;
    } else {
      assert (a + b)[1..] == a[1..] + b;
      CounterAfterConcat(NextCounter(c, a[0]), a[1..], b);
    }
  }

  /** n assignments of true, short of overflow, raise the counter by exactly n. */
  lemma {:induction false} RaisesBy(c: int32, n: nat)
    requires 0 <= c as int && c as int + n <= IntMax as int
    ensures CounterAfter(c, Repeat(true, n)) as int == c as int + n
    decreases n
  {
    if n > 0 {
      assert Repeat(true, n)[1..] == Repeat(true, n - 1);
      RaisesBy(c + 1, n - 1);
    }
  }

  /** n assignments of false lower the counter by n, stopping at zero. */
  lemma {:induction false} LowersBy(c: int32, n: nat)
    requires 0 <= c
    ensures CounterAfter(c, Repeat(false, n)) as int == if n <= c as int then c as int - n else 0
    decreases n
  {
    if n > 0 {
      assert Repeat(false, n)[1..] == Repeat(false, n - 1);
      LowersBy(NextCounter(c, false), n - 1);
    }
  }

  /** Nesting: n raises followed by n lowers bring the counter back to where it was. */
  lemma NestedLoadingReturns(c: int32, n: nat)
    requires 0 <= c as int && c as int + n <= IntMax as int
    ensures CounterAfter(c, Repeat(true, n) + Repeat(false, n)) == c
  {
    CounterAfterConcat(c, Repeat(true, n), Repeat(false, n));
    RaisesBy(c, n);
    LowersBy(CounterAfter(c, Repeat(true, n)), n);
  }

  /** From a fresh view model, n raises then n lowers leave IsLoading false; any single raise makes it true. */
  lemma FreshLoadingBalanced(n: nat)
    requires n <= IntMax as int
    ensures CounterAfter(0, Repeat(true, n) + Repeat(false, n)) == 0
    ensures n > 0 ==> CounterAfter(0, Repeat(true, n)) > 0
  {
    NestedLoadingReturns(0, n);
    RaisesBy(0, n);
  }

  /**
   * The counter stays between zero and the number of raises, as long as
   * fewer than 2^31 raises in total keep it from wrapping.
   */
  lemma {:induction false} CounterNeverNegative(c: int32, sets: seq<bool>)
    requires 0 <= c as int && c as int + |sets| <= IntMax as int
    ensures 0 <= CounterAfter(c, sets) as int <= c as int + |sets|
    decreases sets
  {
    if sets != [] {
      CounterNeverNegative(NextCounter(c, sets[0]), sets[1..]);
    }
  }

  /** The bound above is needed: a raise at IntMax wraps the counter negative and IsLoading reads false. */
  lemma WrapAtIntMax()
    ensures NextCounter(IntMax, true) < 0
    ensures NextCounter(NextCounter(IntMax, true), false) == IntMin
  {
  }
}
