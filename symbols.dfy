/** The symbol table of the mutual-exclusion system: five integer-typed
    places named "p1" .. "p5", declared in that order by a loop that appends
    one symbol per iteration (tests/test-mutex.cpp:11-18, repeated at
    194-201 and 334-341). */
module Symbols {

  /** The type a symbol is declared with. */
  datatype Kind = IntConst | BoolConst

  datatype Symbol = Symbol(kind: Kind, name: string)

  /** Number of places in the protocol. */
  const PlaceCount: nat := 5

  /** The name built for place i: the letter 'p' followed by the single
      character whose code is i + '0'. */
  function PlaceName(i: nat): (name: string)
    requires 1 <= i <= 9
    ensures |name| == 2 && name[0] == 'p' && '1' <= name[1] <= '9'
  {
    "p" + [(i + '0' as int) as char]
  }

  /** The table the declaration loop produces, as a value. */
  function SymbolTable(): seq<Symbol>
  {
    seq(PlaceCount, k requires 0 <= k < PlaceCount => Symbol(IntConst, PlaceName(k + 1)))
  }

  function Names(symbols: seq<Symbol>): (names: seq<string>)
    ensures |names| == |symbols|
    ensures forall k | 0 <= k < |symbols| :: names[k] == symbols[k].name
  {
    if symbols == [] then [] else [symbols[0].name] + Names(symbols[1..])
  }

  /** Builds the symbol list the way the harness does: for i = 1 .. 5,
      form "p" followed by the digit of i and append an integer symbol. */
  method DeclarePlaces() returns (symbols: seq<Symbol>)
    ensures symbols == SymbolTable()
  {
    symbols := [];
    var i := 1;
    while i <= PlaceCount
      invariant 1 <= i <= PlaceCount + 1
      invariant |symbols| == i - 1
      invariant forall k | 0 <= k < i - 1 :: symbols[k] == Symbol(IntConst, PlaceName(k + 1))
    {
      var ic := (i + '0' as int) as char;
      var name := "p";
      name := name + [ic];
      symbols := symbols + [Symbol(IntConst, name)];
      i := i + 1;
    }
  }

  /** The declared names are exactly p1 .. p5, in that order. */
  lemma DeclaredNames()
    ensures Names(SymbolTable()) == ["p1", "p2", "p3", "p4", "p5"]
  {
    var names := Names(SymbolTable());
    assert names[0] == "p1" && names[1] == "p2" && names[2] == "p3";
    assert names[3] == "p4" && names[4] == "p5";
  }

  /** Every declared symbol is integer-typed. */
  lemma AllIntegerTyped(k: nat)
    requires k < |SymbolTable()|
    ensures SymbolTable()[k].kind == IntConst
  {
  }

  /** No name is declared twice. */
  lemma NamesDistinct(a: nat, b: nat)
    requires a < b < |SymbolTable()|
    ensures SymbolTable()[a].name != SymbolTable()[b].name
  {
    assert SymbolTable()[a].name[1] != SymbolTable()[b].name[1];
  }

  /** The identifiers the harness uses to provoke an undeclared-variable
      error are not in the table (tests/test-mutex.cpp:88, 170). */
  lemma OffendingNamesUndeclared()
    ensures "p6" !in Names(SymbolTable())
    ensures "p10" !in Names(SymbolTable())
    ensures "p51" !in Names(SymbolTable())
    ensures "p12" !in Names(SymbolTable())
  {
    DeclaredNames();
  }
}
