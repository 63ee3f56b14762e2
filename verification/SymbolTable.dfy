/**
  The symbol hash table (sym_lookup and sym_find in symbol.c): symbols are interned, so that two
  references to the same name are references to the same symbol.
 */
module SymbolTable {
  import opened Options
  import opened Exprs
  import DotConfig

  /** The flags a symbol is created with: none, SYMBOL_CONST or SYMBOL_CHOICE. */
  datatype Kind = Plain | Const | Choice

  const SIZE: nat := 9973

  class Sym {
    const name: Option<string>
    const kind: Kind

    constructor (name: Option<string>, kind: Kind)
      ensures this.name == name && this.kind == kind
    {
      this.name, this.kind := name, kind;
    }
  }

  function Fnv32(s: string, hash: bv32): bv32
    decreases s
  {
    if s == [] then hash else Fnv32(s[1..], (hash ^ (s[0] as bv32)) * 0x0100_0193)
  }

  /** strhash(name) % SYMBOL_HASHSIZE. */
  function Bucket(name: string): (b: nat)
    ensures b < SIZE
  {
    (Fnv32(name, 2166136261) as nat) % SIZE
  }

  class Table {
    const yes: Sym
    const mod: Sym
    const no: Sym
    /** symbol_hash: the chains, newest symbol first. */
    var chains: seq<seq<Sym>>

    constructor ()
      ensures Valid() && All() == {}
      ensures yes.name == Some("y") && mod.name == Some("m") && no.name == Some("n")
    {
      yes := new Sym(Some("y"), Const);
      mod := new Sym(Some("m"), Const);
      no := new Sym(Some("n"), Const);
      chains := seq(SIZE, _ => []);
    }

    ghost function All(): set<Sym>
      reads this
    {
      set b, i | 0 <= b < |chains| && 0 <= i < |chains[b]| :: chains[b][i]
    }

    /** Every named symbol is in the chain of its hash, and no name occurs twice with the same flags. */
    ghost predicate Valid()
      reads this
    {
      && |chains| == SIZE
      && (forall b, i :: 0 <= b < SIZE && 0 <= i < |chains[b]| && chains[b][i].name.Some? ==>
          Bucket(chains[b][i].name.value) == b)
      && forall b, i, j :: 0 <= b < SIZE && 0 <= i < j < |chains[b]| && chains[b][i].name.Some? ==>
           chains[b][i].name != chains[b][j].name || chains[b][i].kind != chains[b][j].kind
    }

    /** The three constants are found by their names, with any flags. */
    function Constant(name: string): Option<Sym> {
      if name == "y" then Some(yes) else if name == "m" then Some(mod) else if name == "n" then Some(no) else None
    }

    /** The new symbol at the head of its chain. */
    method Insert(s: Sym, b: nat)
      requires Valid() && b < SIZE && s !in All()
      requires s.name.Some? ==> b == Bucket(s.name.value) && forall x :: x in All() ==>
          x.name != s.name || x.kind != s.kind
      modifies this
      ensures Valid() && All() == old(All()) + {s}
    {
      ghost var before, all := chains, All();
      assert forall i :: 0 <= i < |chains[b]| ==> chains[b][i] in All();
      chains := chains[b := [s] + chains[b]];
      assert chains[b][0] == s;
      forall x | x in all ensures x in All() {
        var c, i :| 0 <= c < |before| && 0 <= i < |before[c]| && before[c][i] == x;
        assert chains[c][if c == b then i + 1 else i] == x;
      }
      forall x | x in All() ensures x in all + {s} {
        var c, i :| 0 <= c < |chains| && 0 <= i < |chains[c]| && chains[c][i] == x;
        assert (c == b && i == 0) || before[c][if c == b then i - 1 else i] == x;
      }
    }

    /** sym_lookup with a name: the symbol of that name and flags, created if there is none. */
    method Lookup(name: string, kind: Kind) returns (s: Sym)
      requires Valid()
      modifies this
      ensures Valid()
      ensures Constant(name).Some? ==> s == Constant(name).value && All() == old(All())
      ensures Constant(name).None? ==>
                && s.name == Some(name) && s.kind == kind && All() == old(All()) + {s}
                && (s in old(All()) || fresh(s))
                && forall x :: x in old(All()) && x.name == Some(name) && x.kind == kind ==> s == x
    {
      if Constant(name).Some? {
        return Constant(name).value;
      }
      var b := Bucket(name);
      var chain := chains[b];
      var i := 0;
      while i < |chain|
        invariant 0 <= i <= |chain|
        invariant forall j :: 0 <= j < i ==> chain[j].name != Some(name) || chain[j].kind != kind
      {
        if chain[i].name == Some(name) && chain[i].kind == kind {
          s := chain[i];
          assert s in All();
          return;
        }
        i := i + 1;
      }
      s := new Sym(Some(name), kind);
      Insert(s, b);
    }

    /** sym_lookup without a name, for choices: always a new symbol. */
    method LookupAnonymous(kind: Kind) returns (s: Sym)
      requires Valid()
      modifies this
      ensures Valid() && fresh(s) && s.name == None && s.kind == kind && All() == old(All()) + {s}
    {
      s := new Sym(None, kind);
      Insert(s, 0);
    }

    /** sym_find: it skips constants only, so a choice of the same name may be found instead of the symbol. */
    method Find(name: string) returns (s: Option<Sym>)
      requires Valid()
      ensures Constant(name).Some? ==> s == Constant(name)
      ensures Constant(name).None? ==>
                && (s.Some? <==> exists x :: x in All() && x.name == Some(name) && x.kind != Const)
                && (s.Some? ==> s.value in All() && s.value.name == Some(name) && s.value.kind != Const)
    {
      if Constant(name).Some? {
        return Constant(name);
      }
      var chain := chains[Bucket(name)];
      var i := 0;
      while i < |chain|
        invariant 0 <= i <= |chain|
        invariant forall j :: 0 <= j < i ==> chain[j].name != Some(name) || chain[j].kind == Const
      {
        if chain[i].name == Some(name) && chain[i].kind != Const {
          assert chain[i] in All();
          return Some(chain[i]);
        }
        i := i + 1;
      }
      s := None;
    }

    /** Looking a name up twice yields one symbol, and sym_find finds it unless a choice has the same name. */
    method Intern(name: string) returns (a: Sym, b: Sym, c: Option<Sym>)
      requires Valid() && Constant(name).None?
      requires forall x :: x in All() && x.name == Some(name) ==> x.kind != Choice
      modifies this
      ensures a == b && c == Some(a)
    {
      a := Lookup(name, Plain);
      b := Lookup(name, Plain);
      c := Find(name);
    }

    /** `syms` holds the symbols that are neither constants nor choices by name, as the values they stand for. */
    ghost predicate Represents(syms: DotConfig.Table, meaning: Sym -> Symbol)
      reads this
    {
      && meaning(yes) == SYM_YES && meaning(mod) == SYM_MOD && meaning(no) == SYM_NO
      && (forall x :: x in All() && x.kind == Plain && x.name.Some? ==>
           x.name.value in syms && syms[x.name.value] == meaning(x))
      && forall name :: name in syms ==> exists x :: x in All() && x.kind == Plain && x.name == Some(name)
    }

    /** What sym_find returns is what reading a configuration looks up, unless a choice has the same name. */
    method FindSymbol(name: string, ghost syms: DotConfig.Table, ghost meaning: Sym -> Symbol) returns (s: Option<Sym>)
      requires Valid() && Represents(syms, meaning)
      requires forall x :: x in All() && x.name == Some(name) ==> x.kind != Choice
      ensures DotConfig.Find(syms, name) == if s.Some? then Some(meaning(s.value)) else None
    {
      s := Find(name);
    }

    /** Every choice without a name is a symbol of its own, and no name leads to it. */
    method InternChoices(name: string) returns (a: Sym, b: Sym, c: Option<Sym>)
      requires Valid()
      modifies this
      ensures Valid() && a != b && c != Some(a) && c != Some(b)
    {
      a := LookupAnonymous(Choice);
      b := LookupAnonymous(Choice);
      c := Find(name);
    }
  }
}
