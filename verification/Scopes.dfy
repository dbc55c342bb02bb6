/** The walk over nested scopes that collects the variables visible at an address. */
module Scopes {
  import opened Words

  /** A variable; one without DW_AT_decl_line is never listed. */
  datatype Variable = Variable(id: nat, declLine: Option<nat>)

  datatype Scope = Scope(lowPc: u32, highPc: u32, variables: seq<Variable>, scopes: seq<Scope>) {
    predicate IsPcInRange(pc: u32) {
      lowPc <= pc < highPc
    }

    /** No child scope holds the address. */
    predicate IsLocalScope(pc: u32) {
      forall c | c in scopes :: !c.IsPcInRange(pc)
    }
  }

  predicate AtOrAbove(v: Variable, line: nat) {
    v.declLine.Some? && v.declLine.value <= line
  }

  /** The variables declared at or above a line, in order. */
  function AboveLine(variables: seq<Variable>, line: nat): seq<Variable> {
    if variables == [] then []
    else (if AtOrAbove(variables[0], line) then [variables[0]] else []) + AboveLine(variables[1..], line)
  }

  // ----- the path of scopes around an address -----

  /** The first child that holds the address. */
  function FirstChild(scopes: seq<Scope>, pc: u32): (r: Option<Scope>)
    ensures r.Some? ==> r.value in scopes && r.value.IsPcInRange(pc)
    ensures r == None <==> forall c | c in scopes :: !c.IsPcInRange(pc)
    decreases |scopes|
  {
    if scopes == [] then None
    else if scopes[0].IsPcInRange(pc) then Some(scopes[0])
    else FirstChild(scopes[1..], pc)
  }

  /** From a scope to the innermost one, taking the first child in range. */
  function Path(s: Scope, pc: u32): (p: seq<Scope>)
    ensures p != [] && p[0] == s
  {
    match FirstChild(s.scopes, pc)
    case None => [s]
    case Some(c) => [s] + Path(c, pc)
  }

  /** The variables of a chain of scopes, outermost first. */
  function Listed(p: seq<Scope>, line: nat): seq<Variable> {
    if p == [] then [] else AboveLine(p[0].variables, line) + Listed(p[1..], line)
  }

  function Locals(s: Scope, pc: u32, line: nat): seq<Variable> {
    var p := Path(s, pc);
    AboveLine(p[|p| - 1].variables, line)
  }

  function Globals(s: Scope, pc: u32, line: nat): seq<Variable> {
    var p := Path(s, pc);
    Listed(p[..|p| - 1], line)
  }

  // ----- the methods -----

  method GetVariablesAboveLine(ret: seq<Variable>, s: Scope, line: nat) returns (out: seq<Variable>)
    ensures out == ret + AboveLine(s.variables, line)
  {
    out := ret;
    var i := 0;
    assert s.variables[0..] == s.variables;
    while i < |s.variables|
      invariant 0 <= i <= |s.variables|
      invariant out + AboveLine(s.variables[i..], line) == ret + AboveLine(s.variables, line)
    {
      var v := s.variables[i];
      assert s.variables[i..][1..] == s.variables[i + 1..];
      if v.declLine.Some? && v.declLine.value <= line {
        out := out + [v];
      }
      i := i + 1;
    }
  }

  method GetLocalVariables(ret: seq<Variable>, s: Scope, pc: u32, line: nat) returns (out: seq<Variable>)
    ensures out == ret + Locals(s, pc, line)
    decreases s
  {
    hide AboveLine;
    var i := 0;
    assert s.scopes[0..] == s.scopes;
    while i < |s.scopes|
      invariant 0 <= i <= |s.scopes| && FirstChild(s.scopes, pc) == FirstChild(s.scopes[i..], pc)
    {
      var child := s.scopes[i];
      assert s.scopes[i..][1..] == s.scopes[i + 1..];
      if child.IsPcInRange(pc) {
        out := GetLocalVariables(ret, child, pc, line);
        LocalsOfChild(s, child, pc, line);
        return;
      }
      i := i + 1;
    }
    out := GetVariablesAboveLine(ret, s, line);
  }

  lemma LocalsOfChild(s: Scope, child: Scope, pc: u32, line: nat)
    requires FirstChild(s.scopes, pc) == Some(child)
    ensures Locals(s, pc, line) == Locals(child, pc, line)
  {
  }

  lemma GlobalsOfChild(s: Scope, child: Scope, pc: u32, line: nat)
    requires FirstChild(s.scopes, pc) == Some(child)
    ensures Globals(s, pc, line) == AboveLine(s.variables, line) + Globals(child, pc, line)
  {
    hide AboveLine;
    var p := Path(child, pc);
    assert Path(s, pc) == [s] + p;
    assert ([s] + p)[..|p|] == [s] + p[..|p| - 1];
    assert ([s] + p[..|p| - 1])[1..] == p[..|p| - 1];
  }

  lemma NoGlobals(s: Scope, pc: u32, line: nat)
    requires s.IsLocalScope(pc)
    ensures Globals(s, pc, line) == []
  {
    assert Path(s, pc) == [s];
  }

  method IsLocalScope(s: Scope, pc: u32) returns (local: bool)
    ensures local == s.IsLocalScope(pc)
  {
    var i := 0;
    while i < |s.scopes|
      invariant 0 <= i <= |s.scopes| && forall k | 0 <= k < i :: !s.scopes[k].IsPcInRange(pc)
    {
      if s.scopes[i].IsPcInRange(pc) {
        return false;
      }
      i := i + 1;
    }
    local := true;
  }

  method GetGlobalVariables(ret: seq<Variable>, s: Scope, pc: u32, line: nat) returns (out: seq<Variable>)
    ensures out == ret + Globals(s, pc, line)
    decreases s
  {
    hide AboveLine, Globals, Path;
    var local := IsLocalScope(s, pc);
    if local {
      NoGlobals(s, pc, line);
      return ret;
    }
    out := GetVariablesAboveLine(ret, s, line);
    var i := 0;
    assert s.scopes[0..] == s.scopes;
    while i < |s.scopes|
      invariant 0 <= i <= |s.scopes| && FirstChild(s.scopes, pc) == FirstChild(s.scopes[i..], pc)
    {
      var child := s.scopes[i];
      assert s.scopes[i..][1..] == s.scopes[i + 1..];
      if child.IsPcInRange(pc) {
        GlobalsOfChild(s, child, pc, line);
        out := GetGlobalVariables(out, child, pc, line);
        return;
      }
      i := i + 1;
    }
  }

  // ----- what they list -----

  lemma {:induction false} ListedConcat(a: seq<Scope>, b: seq<Scope>, line: nat)
    ensures Listed(a + b, line) == Listed(a, line) + Listed(b, line)
  {
    hide AboveLine;
    if a == [] {
      assert a + b == b;
    } else {
      assert (a + b)[1..] == a[1..] + b;
      ListedConcat(a[1..], b, line);
    }
  }

  /** The variables listed are those that are declared, and declared no later than the line. */
  lemma {:induction false} AboveLineExact(variables: seq<Variable>, line: nat, v: Variable)
    ensures v in AboveLine(variables, line)
      <==> v in variables && match v.declLine case Some(declared) => declared <= line case None => false
  {
    if variables != [] {
      assert variables == [variables[0]] + variables[1..];
      AboveLineExact(variables[1..], line, v);
    }
  }

  /** Globals followed by locals are the variables of the whole path, in order. */
  lemma Decomposition(s: Scope, pc: u32, line: nat)
    ensures Globals(s, pc, line) + Locals(s, pc, line) == Listed(Path(s, pc), line)
  {
    hide AboveLine, Path;
    var p := Path(s, pc);
    var n := |p| - 1;
    assert p == p[..n] + [p[n]];
    ListedConcat(p[..n], [p[n]], line);
    assert [p[n]][1..] == [];
  }

  /** The address is at or after the first one of the scope and before its end. */
  predicate Around(s: Scope, pc: u32) {
    s.lowPc <= pc < s.highPc
  }

  /** A chain of children around the address, down to a scope none of whose children is around it. */
  predicate IsChain(p: seq<Scope>, s: Scope, pc: u32) {
    && p != [] && p[0] == s
    && (forall k | 0 < k < |p| :: p[k] in p[k - 1].scopes && Around(p[k], pc))
    && forall c | c in p[|p| - 1].scopes :: !Around(c, pc)
  }

  predicate Apart(a: Scope, b: Scope) {
    a.highPc <= b.lowPc || b.highPc <= a.lowPc || a.highPc <= a.lowPc || b.highPc <= b.lowPc
  }

  /** Siblings do not overlap, and below the root every scope lies within its parent. */
  predicate WellNested(s: Scope)
    decreases s
  {
    && (forall j, k | 0 <= j < k < |s.scopes| :: Apart(s.scopes[j], s.scopes[k]))
    && (forall c | c in s.scopes ::
      WellNested(c) && forall g | g in c.scopes :: c.lowPc <= g.lowPc && g.highPc <= c.highPc)
  }

  lemma InRange(s: Scope, pc: u32)
    ensures s.IsPcInRange(pc) == Around(s, pc)
  {
  }

  lemma HeldApart(a: Scope, b: Scope, pc: u32)
    requires Apart(a, b)
    ensures !a.IsPcInRange(pc) || !b.IsPcInRange(pc)
  {
  }

  /** At most one child holds an address. */
  lemma ChildUnique(s: Scope, pc: u32, c: Scope)
    requires WellNested(s) && c in s.scopes && Around(c, pc)
    ensures FirstChild(s.scopes, pc) == Some(c)
  {
    hide Apart, FirstChild, Scope.IsPcInRange, Around;
    InRange(c, pc);
    var k :| 0 <= k < |s.scopes| && s.scopes[k] == c;
    forall j | 0 <= j < |s.scopes| && j != k ensures !s.scopes[j].IsPcInRange(pc) {
      if j < k {
        HeldApart(s.scopes[j], s.scopes[k], pc);
      } else {
        HeldApart(s.scopes[k], s.scopes[j], pc);
      }
    }
  }

  lemma {:induction false} PathIsChain(s: Scope, pc: u32)
    ensures IsChain(Path(s, pc), s, pc)
  {
    match FirstChild(s.scopes, pc)
    case None =>
    case Some(c) =>
      PathIsChain(c, pc);
      var p := Path(c, pc);
      assert forall k | 0 < k < |p| + 1 :: ([s] + p)[k] == p[k - 1];
  }

  lemma ChainTail(p: seq<Scope>, s: Scope, pc: u32)
    requires IsChain(p, s, pc) && |p| > 1
    ensures p[1] in s.scopes && Around(p[1], pc) && IsChain(p[1..], p[1], pc)
  {
    hide Around;
    assert forall k | 0 < k < |p[1..]| :: p[1..][k] == p[k + 1] && p[1..][k - 1] == p[k];
  }

  lemma ChainEnd(p: seq<Scope>, s: Scope, pc: u32)
    requires IsChain(p, s, pc) && |p| <= 1
    ensures p == [s] && FirstChild(s.scopes, pc) == None
  {
    forall c | c in s.scopes ensures !c.IsPcInRange(pc) {
      assert c in p[|p| - 1].scopes;
      InRange(c, pc);
    }
  }

  /** In a well-nested tree the path is the only chain around the address, in whatever order the children come. */
  lemma {:induction false} ChainUnique(s: Scope, pc: u32, p: seq<Scope>)
    requires WellNested(s) && IsChain(p, s, pc)
    ensures p == Path(s, pc)
    decreases |p|
  {
    hide IsChain, Around, FirstChild;
    if |p| <= 1 {
      ChainEnd(p, s, pc);
    } else {
      ChainTail(p, s, pc);
      ChildUnique(s, pc, p[1]);
      ChainUnique(p[1], pc, p[1..]);
      ChainHead(p, s, pc);
    }
  }

  lemma ChainHead(p: seq<Scope>, s: Scope, pc: u32)
    requires IsChain(p, s, pc)
    ensures p != [] && p == [s] + p[1..]
  {
  }

  /** Strictly below s in the tree. */
  predicate Below(d: Scope, s: Scope)
    decreases s
  {
    exists c | c in s.scopes :: d == c || Below(d, c)
  }

  lemma {:induction false} BelowWithin(d: Scope, c: Scope, pc: u32)
    requires WellNested(c) && Below(d, c) && Around(d, pc)
    requires forall g | g in c.scopes :: c.lowPc <= g.lowPc && g.highPc <= c.highPc
    ensures Around(c, pc)
    decreases c
  {
    var g :| g in c.scopes && (d == g || Below(d, g));
    if d != g {
      BelowWithin(d, g, pc);
    }
  }

  /** Below the root, the scopes that hold the address are exactly those on the path. */
  lemma {:induction false} PathIsAllAround(s: Scope, pc: u32, d: Scope)
    requires WellNested(s)
    ensures d in Path(s, pc)[1..] <==> Below(d, s) && Around(d, pc)
    decreases s
  {
    var first := FirstChild(s.scopes, pc);
    if first.Some? {
      var c := first.value;
      PathIsAllAround(c, pc, d);
      var p := Path(c, pc);
      assert Path(s, pc)[1..] == p;
      assert p == [c] + p[1..];
    }
    if Below(d, s) && Around(d, pc) {
      var g :| g in s.scopes && (d == g || Below(d, g));
      if d != g {
        BelowWithin(d, g, pc);
      }
      ChildUnique(s, pc, g);
    }
  }
}
