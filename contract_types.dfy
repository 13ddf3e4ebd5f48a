/** The contract-interface derivation of the vault query service:
    which interfaces a stored contract state class implements, walking the
    declared interfaces recursively and skipping the root `ContractState`. */
module ContractTypes {

  /** A fully qualified JVM class or interface name. */
  type TypeName = string

  /** The root marker interface that every contract state implements. */
  const ContractStateName: TypeName := "net.corda.core.contracts.ContractState"

  /** What class loading and reflection reveal: for every loadable class or
      interface, its directly declared interfaces in declaration order (what
      `Class.getInterfaces` returns), and a rank that strictly decreases from a
      type to each of its interfaces. The rank stands for the acyclicity of the
      JVM type hierarchy; a name that is not a key cannot be loaded. */
  datatype Registry = Registry(interfaces: map<TypeName, seq<TypeName>>, rank: map<TypeName, nat>)
  {
    predicate Valid()
    {
      && interfaces.Keys <= rank.Keys
      && forall t, k :: t in interfaces && 0 <= k < |interfaces[t]| ==>
           interfaces[t][k] in interfaces && rank[interfaces[t][k]] < rank[t]
    }
  }

  /** The set that `deriveContractInterfaces(c)` has collected after visiting
      the first n declared interfaces of c: each non-root interface together
      with everything derived from it; the root is neither added nor entered. */
  function AncestorsUpTo(reg: Registry, c: TypeName, n: nat): set<TypeName>
    requires reg.Valid() && c in reg.interfaces && n <= |reg.interfaces[c]|
    decreases reg.rank[c], n
  {
    if n == 0 then {}
    else
      var it := reg.interfaces[c][n - 1];
      AncestorsUpTo(reg, c, n - 1) +
        (if it == ContractStateName then {} else {it} + AncestorsUpTo(reg, it, |reg.interfaces[it]|))
  }

  /** The result of `deriveContractInterfaces(c)`. */
  function Ancestors(reg: Registry, c: TypeName): set<TypeName>
    requires reg.Valid() && c in reg.interfaces
  {
    AncestorsUpTo(reg, c, |reg.interfaces[c]|)
  }

  /** `deriveContractInterfaces`: a recursive walk that accumulates into a set. */
  method DeriveContractInterfaces(reg: Registry, c: TypeName) returns (myInterfaces: set<TypeName>)
    requires reg.Valid() && c in reg.interfaces
    ensures myInterfaces == Ancestors(reg, c)
    decreases reg.rank[c]
  {
    myInterfaces := {};
    var declared := reg.interfaces[c];
    for k := 0 to |declared|
      invariant myInterfaces == AncestorsUpTo(reg, c, k)
    {
      var it := declared[k];
      if it != ContractStateName {
        myInterfaces := myInterfaces + {it};
        var inherited := DeriveContractInterfaces(reg, it);
        myInterfaces := myInterfaces + inherited;
      }
    }
  }

  // ---------------------------------------------------------------------
  // An independent reference definition: chains of non-root interfaces.
  // ---------------------------------------------------------------------

  /** One step up the hierarchy: b is a declared interface of a other than the root. */
  ghost predicate Step(reg: Registry, a: TypeName, b: TypeName)
  {
    a in reg.interfaces && b in reg.interfaces[a] && b != ContractStateName
  }

  /** p walks from p[0] through declared interfaces, never stepping onto the root. */
  ghost predicate NonRootChain(reg: Registry, p: seq<TypeName>)
    decreases |p|
  {
    |p| >= 2 && Step(reg, p[0], p[1]) && (|p| == 2 || NonRootChain(reg, p[1..]))
  }

  /** x is a transitive non-root ancestor interface of c. */
  ghost predicate Reaches(reg: Registry, c: TypeName, x: TypeName)
  {
    exists p :: NonRootChain(reg, p) && p[0] == c && p[|p| - 1] == x
  }

  /** A chain extended by one more step is a chain. */
  lemma {:induction false} ChainExtend(reg: Registry, p: seq<TypeName>, i: TypeName)
    requires NonRootChain(reg, p) && Step(reg, p[|p| - 1], i)
    ensures NonRootChain(reg, p + [i])
    decreases |p|
  {
    if |p| > 2 {
      ChainExtend(reg, p[1..], i);
      assert (p + [i])[1..] == p[1..] + [i];
    } else {
      assert (p + [i])[1..] == [p[1], i];
    }
  }

  /** A chain never ends on the root. */
  lemma {:induction false} ChainEndsBelowRoot(reg: Registry, p: seq<TypeName>)
    requires NonRootChain(reg, p)
    ensures p[|p| - 1] != ContractStateName
    decreases |p|
  {
    if |p| > 2 {
      ChainEndsBelowRoot(reg, p[1..]);
    }
  }

  /** Every member of the derived set comes from one declared non-root interface. */
  lemma {:induction false} AncestorsUpToSource(reg: Registry, c: TypeName, n: nat, x: TypeName)
    requires reg.Valid() && c in reg.interfaces && n <= |reg.interfaces[c]|
    requires x in AncestorsUpTo(reg, c, n)
    ensures exists k :: 0 <= k < n && reg.interfaces[c][k] != ContractStateName &&
              (x == reg.interfaces[c][k] || x in Ancestors(reg, reg.interfaces[c][k]))
  {
    var it := reg.interfaces[c][n - 1];
    if x !in AncestorsUpTo(reg, c, n - 1) {
      assert it != ContractStateName && (x == it || x in Ancestors(reg, it));
    } else {
      AncestorsUpToSource(reg, c, n - 1, x);
    }
  }

  /** A declared non-root interface, and all it derives, are in the derived set. */
  lemma {:induction false} DeclaredIncluded(reg: Registry, c: TypeName, n: nat, k: nat)
    requires reg.Valid() && c in reg.interfaces && k < n <= |reg.interfaces[c]|
    requires reg.interfaces[c][k] != ContractStateName
    ensures reg.interfaces[c][k] in AncestorsUpTo(reg, c, n)
    ensures Ancestors(reg, reg.interfaces[c][k]) <= AncestorsUpTo(reg, c, n)
  {
    if k < n - 1 {
      DeclaredIncluded(reg, c, n - 1, k);
    }
  }

  /** Every derived interface is loadable and strictly below c in the hierarchy. */
  lemma {:induction false} AncestorsBelow(reg: Registry, c: TypeName, x: TypeName)
    requires reg.Valid() && c in reg.interfaces
    requires x in Ancestors(reg, c)
    ensures x in reg.interfaces && reg.rank[x] < reg.rank[c]
    decreases reg.rank[c]
  {
    AncestorsUpToSource(reg, c, |reg.interfaces[c]|, x);
    var k :| 0 <= k < |reg.interfaces[c]| && reg.interfaces[c][k] != ContractStateName &&
             (x == reg.interfaces[c][k] || x in Ancestors(reg, reg.interfaces[c][k]));
    var it := reg.interfaces[c][k];
    if x != it {
      AncestorsBelow(reg, it, x);
    }
  }

  /** Soundness of the walk: whatever it collects is reached by a non-root chain. */
  lemma {:induction false} AncestorsAreReached(reg: Registry, c: TypeName, x: TypeName)
    requires reg.Valid() && c in reg.interfaces
    requires x in Ancestors(reg, c)
    ensures Reaches(reg, c, x)
    decreases reg.rank[c]
  {
    AncestorsUpToSource(reg, c, |reg.interfaces[c]|, x);
    var k :| 0 <= k < |reg.interfaces[c]| && reg.interfaces[c][k] != ContractStateName &&
             (x == reg.interfaces[c][k] || x in Ancestors(reg, reg.interfaces[c][k]));
    var it := reg.interfaces[c][k];
    if x == it {
      var p := [c, it];
      assert NonRootChain(reg, p);
    } else {
      AncestorsAreReached(reg, it, x);
      var q :| NonRootChain(reg, q) && q[0] == it && q[|q| - 1] == x;
      var p := [c] + q;
      assert p[1..] == q;
      assert NonRootChain(reg, p);
    }
  }

  /** Completeness of the walk: whatever a non-root chain reaches is collected. */
  lemma {:induction false} ReachedAreAncestors(reg: Registry, p: seq<TypeName>)
    requires reg.Valid() && NonRootChain(reg, p)
    ensures p[0] in reg.interfaces && p[|p| - 1] in Ancestors(reg, p[0])
    decreases |p|
  {
    var c, it := p[0], p[1];
    var k :| 0 <= k < |reg.interfaces[c]| && reg.interfaces[c][k] == it;
    DeclaredIncluded(reg, c, |reg.interfaces[c]|, k);
    if |p| > 2 {
      ReachedAreAncestors(reg, p[1..]);
    }
  }

  /** `deriveContractInterfaces(c)` is exactly the set of transitive non-root ancestors of c. */
  lemma AncestorsExact(reg: Registry, c: TypeName, x: TypeName)
    requires reg.Valid() && c in reg.interfaces
    ensures x in Ancestors(reg, c) <==> Reaches(reg, c, x)
  {
    if x in Ancestors(reg, c) {
      AncestorsAreReached(reg, c, x);
    }
    if Reaches(reg, c, x) {
      var p :| NonRootChain(reg, p) && p[0] == c && p[|p| - 1] == x;
      ReachedAreAncestors(reg, p);
    }
  }

  /** The root `ContractState` is never derived, and neither is c itself. */
  lemma RootAndSelfExcluded(reg: Registry, c: TypeName)
    requires reg.Valid() && c in reg.interfaces
    ensures ContractStateName !in Ancestors(reg, c)
    ensures c !in Ancestors(reg, c)
  {
    if ContractStateName in Ancestors(reg, c) {
      AncestorsAreReached(reg, c, ContractStateName);
      var p :| NonRootChain(reg, p) && p[0] == c && p[|p| - 1] == ContractStateName;
      ChainEndsBelowRoot(reg, p);
    }
    if c in Ancestors(reg, c) {
      AncestorsBelow(reg, c, c);
    }
  }

  /** An interface reachable only through the root is not derived. */
  lemma OnlyThroughRootExcluded(reg: Registry, c: TypeName, x: TypeName)
    requires reg.Valid() && c in reg.interfaces
    requires forall p :: NonRootChain(reg, p) && p[0] == c ==> p[|p| - 1] != x
    ensures x !in Ancestors(reg, c)
  {
    AncestorsExact(reg, c, x);
  }

  /** Every declared non-root interface of c is derived. */
  lemma DeclaredInterfacesDerived(reg: Registry, c: TypeName, i: TypeName)
    requires reg.Valid() && c in reg.interfaces
    requires i in reg.interfaces[c] && i != ContractStateName
    ensures i in Ancestors(reg, c)
  {
    var k :| 0 <= k < |reg.interfaces[c]| && reg.interfaces[c][k] == i;
    DeclaredIncluded(reg, c, |reg.interfaces[c]|, k);
  }

  /** The derived set is closed under taking declared non-root interfaces of its members. */
  lemma AncestorsClosed(reg: Registry, c: TypeName, x: TypeName, i: TypeName)
    requires reg.Valid() && c in reg.interfaces
    requires x in Ancestors(reg, c)
    requires x in reg.interfaces && i in reg.interfaces[x] && i != ContractStateName
    ensures i in Ancestors(reg, c)
  {
    AncestorsAreReached(reg, c, x);
    var p :| NonRootChain(reg, p) && p[0] == c && p[|p| - 1] == x;
    ChainExtend(reg, p, i);
    ReachedAreAncestors(reg, p + [i]);
  }

  /** The derived set is the least set that holds c's declared non-root
      interfaces and is closed under declared non-root interfaces. */
  lemma AncestorsLeast(reg: Registry, c: TypeName, s: set<TypeName>)
    requires reg.Valid() && c in reg.interfaces
    requires forall i :: i in reg.interfaces[c] && i != ContractStateName ==> i in s
    requires forall x, i :: x in s && x in reg.interfaces && i in reg.interfaces[x] && i != ContractStateName ==> i in s
    ensures Ancestors(reg, c) <= s
  {
    forall x | x in Ancestors(reg, c)
      ensures x in s
    {
      AncestorsAreReached(reg, c, x);
      var p :| NonRootChain(reg, p) && p[0] == c && p[|p| - 1] == x;
      ChainInside(reg, p, s);
    }
  }

  /** A chain that starts with a step into s stays in s when s is closed. */
  lemma {:induction false} ChainInside(reg: Registry, p: seq<TypeName>, s: set<TypeName>)
    requires NonRootChain(reg, p)
    requires forall i :: i in reg.interfaces[p[0]] && i != ContractStateName ==> i in s
    requires forall x, i :: x in s && x in reg.interfaces && i in reg.interfaces[x] && i != ContractStateName ==> i in s
    ensures p[|p| - 1] in s
    decreases |p|
  {
    if |p| > 2 {
      assert p[1] in s;
      ChainInside(reg, p[1..], s);
    }
  }
}
