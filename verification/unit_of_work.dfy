/** The unit-of-work manager: one boolean that, once set, stops every
    repository write from saving on its own. */
module UnitOfWork {

  datatype Manager = Manager(started: bool)
  {
    predicate IsUnitOfWorkStarted() { started }
  }

  /** A manager as the DI container creates it for a request. */
  function New(): (m: Manager)
    ensures !m.IsUnitOfWorkStarted()
  {
    Manager(false)
  }

  function StartUnitOfWork(m: Manager): (m': Manager)
    ensures m'.IsUnitOfWorkStarted()
  {
    m.(started := true)
  }

  /** Everything a caller can do with a manager. Saving goes through the
      database context and leaves the flag alone. */
  datatype Call = Start | Query | SaveChanges

  function Step(m: Manager, c: Call): Manager
  {
    match c
    case Start => StartUnitOfWork(m)
    case Query => m
    case SaveChanges => m
  }

  function Run(m: Manager, calls: seq<Call>): Manager
    decreases |calls|
  {
    if |calls| == 0 then m else Run(Step(m, calls[0]), calls[1..])
  }

  /** Starting twice is the same as starting once. */
  lemma StartIdempotent(m: Manager)
    ensures StartUnitOfWork(StartUnitOfWork(m)) == StartUnitOfWork(m)
  {
  }

  /** Once started, a manager stays started whatever is called afterwards. */
  lemma {:induction false} StaysStarted(m: Manager, calls: seq<Call>)
    requires m.IsUnitOfWorkStarted()
    ensures Run(m, calls).IsUnitOfWorkStarted()
    decreases |calls|
  {
    if |calls| > 0 {
      StaysStarted(Step(m, calls[0]), calls[1..]);
    }
  }

  /** A fresh manager is started exactly when StartUnitOfWork was among the calls. */
  lemma {:induction false} StartedIffStartCalled(m: Manager, calls: seq<Call>)
    requires !m.IsUnitOfWorkStarted()
    ensures Run(m, calls).IsUnitOfWorkStarted() <==> Start in calls
    decreases |calls|
  {
    if |calls| > 0 {
      if calls[0] == Start {
        StaysStarted(Step(m, calls[0]), calls[1..]);
      } else {
        StartedIffStartCalled(Step(m, calls[0]), calls[1..]);
        assert Start in calls <==> Start in calls[1..] by {
          assert calls == [calls[0]] + calls[1..];
        }
      }
    }
  }
}
