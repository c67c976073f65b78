/** conf_parse followed by evaluation: the dependency check is what makes the evaluator trustworthy. */
module Loading {
  import opened Expressions
  import opened Kconfig
  import opened Evaluation
  import opened Checking

  /** Check all symbols, in any order; if no error is reported, calculate any symbols in any order. Errors are
      reported exactly for cyclic dependency graphs. Without an error the equations have exactly one solution
      and every calculated symbol has the status it gives. */
  method CheckAndCalculate(k: Model, users: Users, symbols: seq<Symbol>, queries: seq<Symbol>)
    returns (errors: nat, state: Symbols)
    requires WellFormed(k) && users.Keys == k.defs.Keys && forall s <- k.defs :: s in symbols
    ensures errors > 0 <==> HasCycle(k)
    ensures errors == 0 ==> exists sol :: Solution(k, users, sol)
    ensures errors == 0 ==> forall e1, e2 :: Solution(k, users, e1) && Solution(k, users, e2) ==> e1 == e2
    ensures errors == 0 ==> forall s <- queries :: s in k.defs ==> s in state && state[s].valid
    ensures errors == 0 ==> forall sol :: Solution(k, users, sol) ==> Faithful(k, sol, state)
  {
    var checker := new Checker(k, true);
    ghost var rank;
    errors, rank := checker.CheckAll(symbols);
    state := map[];
    if errors == 0 {
      var table := new SymbolTable(k, users);
      ghost var sol := ExistsSolution(k, users, rank);
      table.CalcEach(queries, rank, sol);
      state := table.symbols;
      forall e1, e2 | Solution(k, users, e1) && Solution(k, users, e2) ensures e1 == e2 {
        UniqueSolution(k, users, rank, e1, e2);
      }
    }
  }
}
