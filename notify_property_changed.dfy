/**
 * Core.Mvvm.NotifyPropertyChanged: string-keyed change notification with a
 * table of dependent properties. Every PropertyChanged event a subscriber
 * would receive is recorded, in order, in a log of property names.
 */
module Notification {

  /** An entry of the dependency table: when the first property changes, the second is announced too. */
  type Dependency = (string, string)

  /**
   * A ranking witnessing that no chain of dependencies starting inside its
   * domain comes back on itself: every entry whose key is ranked leads to a
   * ranked dependent of smaller rank. A name has such a ranking exactly
   * when the part of the dependency graph reachable from it is acyclic.
   */
  predicate Ranked(deps: seq<Dependency>, rank: map<string, nat>) {
    forall i | 0 <= i < |deps| :: deps[i].0 in rank ==> deps[i].1 in rank && rank[deps[i].1] < rank[deps[i].0]
  }

  /**
   * The events RaisePropertyChanged(name) delivers: name itself, then for
   * each table entry keyed by name, in table order, the events of raising
   * that entry's dependent.
   */
  function Raised(deps: seq<Dependency>, name: string, rank: map<string, nat>): (log: seq<string>)
    requires name in rank && Ranked(deps, rank)
    decreases rank[name], |deps| + 1
  {
    [name] + RaisedThrough(deps, name, |deps|, rank)
  }

  /** The events raised on behalf of name's dependents among the first n table entries. */
  function RaisedThrough(deps: seq<Dependency>, name: string, n: nat, rank: map<string, nat>): seq<string>
    requires n <= |deps| && name in rank && Ranked(deps, rank)
    decreases rank[name], n
  {
    if n == 0 then []
    else
      RaisedThrough(deps, name, n - 1, rank)
      + (if deps[n - 1].0 == name then Raised(deps, deps[n - 1].1, rank) else [])
  }

  /** The table after SetDependency(key, dependent): unchanged if the pair is there, else the pair appended. */
  function WithDependency(deps: seq<Dependency>, key: string, dependent: string): (r: seq<Dependency>)
    ensures (key, dependent) in r
    ensures |deps| <= |r| <= |deps| + 1
    ensures r[..|deps|] == deps
    ensures (key, dependent) in deps ==> r == deps
  {
    if (key, dependent) in deps then deps else deps + [(key, dependent)]
  }

  /** No pair occurs twice in the table. */
  predicate NoDuplicates(deps: seq<Dependency>) {
    forall i, j | 0 <= i < j < |deps| :: deps[i] != deps[j]
  }

  class NotifyPropertyChanged {
    /** The dependency table, in insertion order. */
    var dependencies: seq<Dependency>
    /** Every PropertyChanged event delivered so far: the property names, in order. */
    var log: seq<string>

    constructor ()
      ensures dependencies == [] && log == []
    {
      dependencies := [];
      log := [];
    }

    /**
     * SetProperty(propertyName, ref oldValue, newValue): an equal value
     * changes nothing and reports false; a different one is stored (returned
     * as stored, standing for the ref parameter), announced, and reported true.
     */
    method SetProperty<T(==)>(propertyName: string, oldValue: T, newValue: T, ghost rank: map<string, nat>)
      returns (changed: bool, stored: T)
      requires oldValue != newValue ==> propertyName in rank && Ranked(dependencies, rank)
      modifies this`log
      ensures changed <==> oldValue != newValue
      ensures stored == newValue
      ensures !changed ==> log == old(log)
      ensures changed ==> log == old(log) + Raised(dependencies, propertyName, rank)
      ensures changed ==> log[|old(log)|] == propertyName
    {
      if oldValue == newValue {
        return false, oldValue;
      }
      stored := newValue;
      RaisePropertyChanged(propertyName, rank);
      changed := true;
    }

    /** SetDependency: records the pair once; a pair already in the table is not added again. */
    method SetDependency(propertyName: string, dependentPropertyName: string)
      modifies this`dependencies
      ensures dependencies == WithDependency(old(dependencies), propertyName, dependentPropertyName)
    {
      if (propertyName, dependentPropertyName) in dependencies {
        return;
      }
      dependencies := dependencies + [(propertyName, dependentPropertyName)];
    }

    /**
     * RaisePropertyChanged: announces the name, then raises each dependent
     * whose table entry is keyed by the name, in table order.
     */
    method RaisePropertyChanged(propertyName: string, ghost rank: map<string, nat>)
      requires propertyName in rank && Ranked(dependencies, rank)
      modifies this`log
      ensures log == old(log) + Raised(dependencies, propertyName, rank)
      decreases rank[propertyName]
    {
      log := log + [propertyName];
      for i := 0 to |dependencies|
        invariant log == old(log) + [propertyName] + RaisedThrough(dependencies, propertyName, i, rank)
      {
        var d := dependencies[i];
        if d.0 == propertyName {
          RaisePropertyChanged(d.1, rank);
        }
      }
    }
  }

  // ---------------------------------------------------------------------------
  // Properties of the dependency table

  /** SetDependency never introduces a duplicate pair. */
  lemma WithDependencyKeepsNoDuplicates(deps: seq<Dependency>, key: string, dependent: string)
    requires NoDuplicates(deps)
    ensures NoDuplicates(WithDependency(deps, key, dependent))
  {
  }

  /** Repeating SetDependency with the same pair changes nothing. */
  lemma WithDependencyIdempotent(deps: seq<Dependency>, key: string, dependent: string)
    ensures WithDependency(WithDependency(deps, key, dependent), key, dependent) == WithDependency(deps, key, dependent)
  {
  }

  // ---------------------------------------------------------------------------
  // Properties of the notification cascade

  /** With no entry keyed by the name, raising it delivers exactly one event. */
  lemma RaisedAlone(deps: seq<Dependency>, name: string, rank: map<string, nat>)
    requires name in rank && Ranked(deps, rank)
    requires forall i | 0 <= i < |deps| :: deps[i].0 != name
    ensures Raised(deps, name, rank) == [name]
  {
    RaisedThroughNone(deps, name, |deps|, rank);
  }

  lemma {:induction false} RaisedThroughNone(deps: seq<Dependency>, name: string, n: nat, rank: map<string, nat>)
    requires n <= |deps| && name in rank && Ranked(deps, rank)
    requires forall i | 0 <= i < |deps| :: deps[i].0 != name
    ensures RaisedThrough(deps, name, n, rank) == []
  {
    if n > 0 {
      RaisedThroughNone(deps, name, n - 1, rank);
    }
  }

  /** The set of names that appear as a dependent in the table. */
  function Dependents(deps: seq<Dependency>): set<string> {
    set i | 0 <= i < |deps| :: deps[i].1
  }

  /** Raising a name announces the name first and afterwards only names that the table lists as dependents. */
  lemma {:induction false} RaisedNames(deps: seq<Dependency>, name: string, rank: map<string, nat>)
    requires name in rank && Ranked(deps, rank)
    ensures Raised(deps, name, rank)[0] == name
    ensures forall k | 1 <= k < |Raised(deps, name, rank)| :: Raised(deps, name, rank)[k] in Dependents(deps)
    decreases rank[name], |deps| + 1
  {
    RaisedThroughNames(deps, name, |deps|, rank);
  }

  lemma {:induction false} RaisedThroughNames(deps: seq<Dependency>, name: string, n: nat, rank: map<string, nat>)
    requires n <= |deps| && name in rank && Ranked(deps, rank)
    ensures forall x | x in RaisedThrough(deps, name, n, rank) :: x in Dependents(deps)
    decreases rank[name], n
  {
    if n > 0 {
      RaisedThroughNames(deps, name, n - 1, rank);
      if deps[n - 1].0 == name {
        var d := deps[n - 1].1;
        RaisedNames(deps, d, rank);
        assert d in Dependents(deps);
        var tail := Raised(deps, d, rank);
        forall x | x in tail ensures x in Dependents(deps) {
          var k :| 0 <= k < |tail| && tail[k] == x;
          if k == 0 { assert x == d; }
        }
      }
    }
  }

  /** The ranking only proves termination: any two rankings give the same events. */
  lemma {:induction false} RaisedIndependentOfRank(deps: seq<Dependency>, name: string, r1: map<string, nat>, r2: map<string, nat>)
    requires name in r1 && Ranked(deps, r1) && name in r2 && Ranked(deps, r2)
    ensures Raised(deps, name, r1) == Raised(deps, name, r2)
    decreases r1[name], |deps| + 1
  {
    RaisedThroughIndependentOfRank(deps, name, |deps|, r1, r2);
  }

  lemma {:induction false} RaisedThroughIndependentOfRank(deps: seq<Dependency>, name: string, n: nat, r1: map<string, nat>, r2: map<string, nat>)
    requires n <= |deps| && name in r1 && Ranked(deps, r1) && name in r2 && Ranked(deps, r2)
    ensures RaisedThrough(deps, name, n, r1) == RaisedThrough(deps, name, n, r2)
    decreases r1[name], n
  {
    if n > 0 {
      RaisedThroughIndependentOfRank(deps, name, n - 1, r1, r2);
      if deps[n - 1].0 == name {
        RaisedIndependentOfRank(deps, deps[n - 1].1, r1, r2);
      }
    }
  }
}
