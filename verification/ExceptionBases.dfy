/**
 The search that decides whether an exception class derives from the application error: a
 depth-first search over base names that remembers the path it came by.
 */
module ExceptionBases {

  /** Each known class with the names of its bases. */
  type Classes = map<string, set<string>>

  const ROOT := "ApplicationError"

  /** Some base of a class reachable from `name`, without a class already seen, is the root. */
  predicate InheritsFromApplicationError(name: string, classes: Classes, seen: set<string>)
    decreases classes.Keys - seen
  {
    name !in seen && name in classes &&
    (ROOT in classes[name] ||
     exists base :: base in classes[name] && InheritsFromApplicationError(base, classes, seen + {name}))
  }

  // ----- Chains of bases -----

  /** Known classes, each a base of the one before it, the last one with the root among its bases. */
  ghost predicate IsChain(chain: seq<string>, classes: Classes) {
    && chain != []
    && (forall k :: 0 <= k < |chain| ==> chain[k] in classes)
    && (forall k :: 0 <= k < |chain| - 1 ==> chain[k + 1] in classes[chain[k]])
    && "ApplicationError" in classes[chain[|chain| - 1]]
  }

  ghost predicate IsSimple(chain: seq<string>) {
    forall i, j :: 0 <= i < j < |chain| ==> chain[i] != chain[j]
  }

  lemma RestIsChain(chain: seq<string>, classes: Classes, i: nat)
    requires IsChain(chain, classes) && i < |chain|
    ensures IsChain(chain[i..], classes)
  {
    var rest := chain[i..];
    forall k | 0 <= k < |rest| - 1 ensures rest[k + 1] in classes[rest[k]] {
      assert rest[k + 1] == chain[i + k + 1] && rest[k] == chain[i + k];
    }
  }

  lemma ConsIsChain(name: string, chain: seq<string>, classes: Classes)
    requires IsChain(chain, classes) && name in classes && chain[0] in classes[name]
    ensures IsChain([name] + chain, classes)
  {
    var all := [name] + chain;
    forall k | 0 <= k < |all| - 1 ensures all[k + 1] in classes[all[k]] {
      assert k > 0 ==> all[k] == chain[k - 1] && all[k + 1] == chain[k];
    }
  }

  // ----- Soundness -----

  lemma {:induction false} FoundHasChain(name: string, classes: Classes, seen: set<string>) returns (chain: seq<string>)
    requires InheritsFromApplicationError(name, classes, seen)
    ensures IsChain(chain, classes) && chain[0] == name
    decreases classes.Keys - seen
  {
    if ROOT in classes[name] {
      chain := [name];
    } else {
      var base :| base in classes[name] && InheritsFromApplicationError(base, classes, seen + {name});
      var rest := FoundHasChain(base, classes, seen + {name});
      ConsIsChain(name, rest, classes);
      chain := [name] + rest;
    }
  }

  // ----- Completeness -----

  /** Cutting out a loop leaves a chain from the same class. */
  lemma CutLoop(chain: seq<string>, classes: Classes, i: nat, j: nat) returns (shorter: seq<string>)
    requires IsChain(chain, classes) && i < j < |chain| && chain[i] == chain[j]
    ensures IsChain(shorter, classes) && shorter[0] == chain[0] && |shorter| < |chain|
  {
    shorter := chain[..i] + chain[j..];
    var n := |chain|;
    forall k | 0 <= k < |shorter| ensures shorter[k] == if k < i then chain[k] else chain[k + j - i] { }
    forall k | 0 <= k < |shorter| - 1 ensures shorter[k + 1] in classes[shorter[k]] {
      if k + 1 < i {
        assert chain[k + 1] in classes[chain[k]];
      } else if k + 1 == i {
        assert chain[k + 1] in classes[chain[k]] && shorter[k + 1] == chain[j];
      } else {
        assert chain[k + j - i + 1] in classes[chain[k + j - i]];
      }
    }
  }

  lemma {:induction false} SimpleChain(chain: seq<string>, classes: Classes) returns (simple: seq<string>)
    requires IsChain(chain, classes)
    ensures IsChain(simple, classes) && simple[0] == chain[0] && IsSimple(simple)
    decreases |chain|
  {
    if IsSimple(chain) {
      simple := chain;
    } else {
      var i, j :| 0 <= i < j < |chain| && chain[i] == chain[j];
      var shorter := CutLoop(chain, classes, i, j);
      simple := SimpleChain(shorter, classes);
    }
  }

  lemma {:induction false} SimpleChainIsFound(chain: seq<string>, classes: Classes, seen: set<string>)
    requires IsChain(chain, classes) && IsSimple(chain) && forall k :: 0 <= k < |chain| ==> chain[k] !in seen
    ensures InheritsFromApplicationError(chain[0], classes, seen)
    decreases |chain|
  {
    var name := chain[0];
    if ROOT !in classes[name] {
      assert |chain| > 1;
      RestIsChain(chain, classes, 1);
      var rest := chain[1..];
      SimpleChainIsFound(rest, classes, seen + {name});
      assert rest[0] == chain[0 + 1] && rest[0] in classes[name];
    }
  }

  /** On any class graph, cyclic or not, the search finds the root exactly when some chain of known
      classes leads to one that has it as a base. */
  lemma SearchIsComplete(name: string, classes: Classes)
    ensures InheritsFromApplicationError(name, classes, {}) <==>
            exists chain :: IsChain(chain, classes) && chain[0] == name
  {
    if InheritsFromApplicationError(name, classes, {}) {
      var chain := FoundHasChain(name, classes, {});
    }
    if exists chain :: IsChain(chain, classes) && chain[0] == name {
      var chain :| IsChain(chain, classes) && chain[0] == name;
      var simple := SimpleChain(chain, classes);
      SimpleChainIsFound(simple, classes, {});
    }
  }
}
