/** The process-tree audit: which running builders are not descendants of ours. */
module ProcessTree {

  datatype Row = Row(pid: int, ppid: int, state: string, comm: string)

  const BUILDERS := {"ninja", "cmake", "cc1plus", "clang", "clang++", "g++", "scons", "ld.lld",
                     "tar", "gzip", "pigz", "zstd", "xz"}

  /** Stopped and zombie processes are not running. */
  predicate Running(state: string) {
    state == "" || (state[0] != 'T' && state[0] != 'Z')
  }

  /** Descendants within k generations. */
  ghost function Generation(rows: seq<Row>, allowed: set<int>, k: nat): set<int> {
    if k == 0 then allowed else
      Generation(rows, allowed, k - 1) + Children(rows, Generation(rows, allowed, k - 1))
  }

  ghost function Children(rows: seq<Row>, parents: set<int>): set<int> {
    set i | 0 <= i < |rows| && rows[i].ppid in parents :: rows[i].pid
  }

  ghost predicate Descendant(rows: seq<Row>, allowed: set<int>, pid: int) {
    exists k: nat :: pid in Generation(rows, allowed, k)
  }

  /** No row's parent is inside while the row is outside. */
  ghost predicate Closed(rows: seq<Row>, own: set<int>) {
    forall i :: 0 <= i < |rows| && rows[i].ppid in own ==> rows[i].pid in own
  }

  // ---- one pass ------------------------------------------------------------------

  /** own.update(generator): the set grows while the generator runs, so a row sees
      the pids added by earlier rows of the same pass. */
  function Pass(rows: seq<Row>, own: set<int>): set<int> {
    if rows == [] then own
    else Pass(rows[1..], if rows[0].ppid in own then own + {rows[0].pid} else own)
  }

  lemma {:induction false} PassGrows(rows: seq<Row>, own: set<int>)
    ensures own <= Pass(rows, own)
    ensures Children(rows, own) <= Pass(rows, own)
  {
    if rows != [] {
      var own' := if rows[0].ppid in own then own + {rows[0].pid} else own;
      PassGrows(rows[1..], own');
      forall pid | pid in Children(rows, own) ensures pid in Pass(rows, own) {
        var i :| 0 <= i < |rows| && rows[i].ppid in own && rows[i].pid == pid;
        if i > 0 {
          assert rows[1..][i - 1] == rows[i];
          assert pid in Children(rows[1..], own');
        }
      }
    }
  }

  /** A pass never leaves a closed superset of the set it starts from. */
  lemma {:induction false} PassStaysIn(rows: seq<Row>, own: set<int>, all: seq<Row>, closed: set<int>)
    requires own <= closed && Closed(all, closed)
    requires forall i :: 0 <= i < |rows| ==> rows[i] in all
    ensures Pass(rows, own) <= closed
  {
    if rows != [] {
      assert rows[0] in all;
      var k :| 0 <= k < |all| && all[k] == rows[0];
      PassStaysIn(rows[1..], if rows[0].ppid in own then own + {rows[0].pid} else own, all, closed);
    }
  }

  /** A pass adds nothing exactly when the set is closed. */
  lemma PassFixpoint(rows: seq<Row>, own: set<int>)
    ensures Pass(rows, own) == own <==> Closed(rows, own)
  {
    PassGrows(rows, own);
    if Closed(rows, own) {
      PassStaysIn(rows, own, rows, own);
    } else {
      var i :| 0 <= i < |rows| && rows[i].ppid in own && rows[i].pid !in own;
      assert rows[i].pid in Children(rows, own);
    }
  }

  function Passes(rows: seq<Row>, own: set<int>, n: nat): set<int> {
    if n == 0 then own else Pass(rows, Passes(rows, own, n - 1))
  }

  /** A pass that adds nothing makes all later passes no-ops. */
  lemma {:induction false} PassesStable(rows: seq<Row>, own: set<int>, m: nat, n: nat)
    requires m <= n && Pass(rows, Passes(rows, own, m)) == Passes(rows, own, m)
    ensures Passes(rows, own, n) == Passes(rows, own, m)
  {
    if m < n {
      PassesStable(rows, own, m, n - 1);
    }
  }

  /** n passes reach every descendant within n generations, in any row order. */
  lemma {:induction false} PassesReach(rows: seq<Row>, allowed: set<int>, n: nat)
    ensures Generation(rows, allowed, n) <= Passes(rows, allowed, n)
  {
    if n > 0 {
      PassesReach(rows, allowed, n - 1);
      PassGrows(rows, Passes(rows, allowed, n - 1));
      forall pid | pid in Children(rows, Generation(rows, allowed, n - 1))
        ensures pid in Passes(rows, allowed, n)
      {
        var i :| 0 <= i < |rows| && rows[i].ppid in Generation(rows, allowed, n - 1) && rows[i].pid == pid;
        assert pid in Children(rows, Passes(rows, allowed, n - 1));
      }
    }
  }

  lemma {:induction false} GenerationsGrow(rows: seq<Row>, allowed: set<int>, j: nat, k: nat)
    requires j <= k
    ensures Generation(rows, allowed, j) <= Generation(rows, allowed, k)
  {
    if j < k {
      GenerationsGrow(rows, allowed, j, k - 1);
    }
  }

  ghost predicate AllDescend(rows: seq<Row>, allowed: set<int>, own: set<int>) {
    forall pid :: pid in own ==> Descendant(rows, allowed, pid)
  }

  /** Passes add only descendants. */
  lemma {:induction false} PassDescends(rest: seq<Row>, own: set<int>, rows: seq<Row>, allowed: set<int>)
    requires AllDescend(rows, allowed, own) && forall i :: 0 <= i < |rest| ==> rest[i] in rows
    ensures AllDescend(rows, allowed, Pass(rest, own))
  {
    if rest != [] {
      var own' := if rest[0].ppid in own then own + {rest[0].pid} else own;
      if rest[0].ppid in own {
        assert Descendant(rows, allowed, rest[0].ppid);
        var k: nat :| rest[0].ppid in Generation(rows, allowed, k);
        assert rest[0] in rows;
        var i :| 0 <= i < |rows| && rows[i] == rest[0];
        assert rest[0].pid in Children(rows, Generation(rows, allowed, k));
        assert rest[0].pid in Generation(rows, allowed, k + 1);
      }
      PassDescends(rest[1..], own', rows, allowed);
    }
  }

  lemma {:induction false} PassesDescend(rows: seq<Row>, allowed: set<int>, n: nat)
    ensures AllDescend(rows, allowed, Passes(rows, allowed, n))
  {
    if n == 0 {
      forall pid | pid in allowed ensures Descendant(rows, allowed, pid) {
        assert pid in Generation(rows, allowed, 0);
      }
    } else {
      PassesDescend(rows, allowed, n - 1);
      PassDescends(rows, Passes(rows, allowed, n - 1), rows, allowed);
    }
  }

  // ---- exactly which pids n passes find ----------------------------------------------

  /** The set while a pass is under way, after its first i rows. */
  function Partial(rows: seq<Row>, own: set<int>, i: nat): set<int>
    requires i <= |rows|
  {
    if i == 0 then own else
      var before := Partial(rows, own, i - 1);
      if rows[i - 1].ppid in before then before + {rows[i - 1].pid} else before
  }

  lemma {:induction false} PassIsPartial(rows: seq<Row>, own: set<int>, i: nat)
    requires i <= |rows|
    ensures Pass(rows[i..], Partial(rows, own, i)) == Pass(rows, own)
  {
    if i > 0 {
      PassIsPartial(rows, own, i - 1);
      assert rows[i - 1..][1..] == rows[i..] && rows[i - 1..][0] == rows[i - 1];
    } else {
      assert rows[0..] == rows;
    }
  }

  lemma WholePass(rows: seq<Row>, own: set<int>)
    ensures Partial(rows, own, |rows|) == Pass(rows, own)
  {
    PassIsPartial(rows, own, |rows|);
    assert rows[|rows|..] == [];
  }

  lemma {:induction false} PartialGrows(rows: seq<Row>, own: set<int>, i: nat, j: nat)
    requires i <= j <= |rows|
    ensures Partial(rows, own, i) <= Partial(rows, own, j)
  {
    if i < j {
      PartialGrows(rows, own, i, j - 1);
    }
  }

  /** c lists rows of the table from a child of an allowed pid down, each the child of
      the one before. */
  ghost predicate Chain(rows: seq<Row>, allowed: set<int>, c: seq<nat>) {
    && c != [] && (forall i :: 0 <= i < |c| ==> c[i] < |rows|)
    && rows[c[0]].ppid in allowed
    && forall i :: 0 < i < |c| ==> rows[c[i]].ppid == rows[c[i - 1]].pid
  }

  /** How often the chain steps to a row that is not further down the listing. */
  function Drops(c: seq<nat>): nat {
    if |c| <= 1 then 0 else Drops(c[..|c| - 1]) + if c[|c| - 1] <= c[|c| - 2] then 1 else 0
  }

  /** The set during pass n + 1, after i rows. */
  function During(rows: seq<Row>, allowed: set<int>, n: nat, i: nat): set<int>
    requires i <= |rows|
  {
    Partial(rows, Passes(rows, allowed, n), i)
  }

  lemma DuringNext(rows: seq<Row>, allowed: set<int>, n: nat)
    ensures During(rows, allowed, n, |rows|) == Passes(rows, allowed, n + 1) == During(rows, allowed, n + 1, 0)
  {
    WholePass(rows, Passes(rows, allowed, n));
  }

  lemma {:induction false} PassesGrow(rows: seq<Row>, allowed: set<int>, m: nat, n: nat)
    requires m <= n
    ensures Passes(rows, allowed, m) <= Passes(rows, allowed, n)
  {
    if m < n {
      PassesGrow(rows, allowed, m, n - 1);
      PassGrows(rows, Passes(rows, allowed, n - 1));
    }
  }

  lemma ChainInit(rows: seq<Row>, allowed: set<int>, c: seq<nat>)
    requires Chain(rows, allowed, c) && |c| > 1
    ensures Chain(rows, allowed, c[..|c| - 1])
  {
  }

  /** A chain with d drops is found during pass d + 1, when its last row is read. */
  lemma {:induction false} ChainFound(rows: seq<Row>, allowed: set<int>, c: seq<nat>)
    requires Chain(rows, allowed, c)
    ensures rows[c[|c| - 1]].pid in During(rows, allowed, Drops(c), c[|c| - 1] + 1)
  {
    var last, own := c[|c| - 1], Passes(rows, allowed, Drops(c));
    if |c| == 1 {
      PartialGrows(rows, allowed, 0, last);
    } else {
      var init := c[..|c| - 1];
      var prev := c[|c| - 2];
      ChainInit(rows, allowed, c);
      ChainFound(rows, allowed, init);
      if prev < last {
        PartialGrows(rows, own, prev + 1, last);
      } else {
        PartialGrows(rows, Passes(rows, allowed, Drops(init)), prev + 1, |rows|);
        DuringNext(rows, allowed, Drops(init));
        PartialGrows(rows, own, 0, last);
      }
      assert rows[last].ppid in Partial(rows, own, last);
    }
  }

  /** Whatever is in the set came down a chain with few enough drops. */
  lemma {:induction false} FoundByChain(rows: seq<Row>, allowed: set<int>, n: nat, i: nat, pid: int) returns (c: seq<nat>)
    requires i <= |rows| && pid in During(rows, allowed, n, i) && pid !in allowed
    ensures Chain(rows, allowed, c) && rows[c[|c| - 1]].pid == pid
    ensures Drops(c) < n || (Drops(c) == n && c[|c| - 1] < i)
    decreases n, i
  {
    if i == 0 {
      DuringNext(rows, allowed, n - 1);
      c := FoundByChain(rows, allowed, n - 1, |rows|, pid);
    } else if pid in During(rows, allowed, n, i - 1) {
      c := FoundByChain(rows, allowed, n, i - 1, pid);
    } else {
      var parent := rows[i - 1].ppid;
      if parent in allowed {
        c := [i - 1];
      } else {
        var up := FoundByChain(rows, allowed, n, i - 1, parent);
        c := up + [i - 1];
        assert c[..|c| - 1] == up;
      }
    }
  }

  /** n passes find exactly the allowed pids and those at the end of a chain with fewer
      than n drops. */
  lemma PassesByChains(rows: seq<Row>, allowed: set<int>, n: nat, pid: int)
    ensures pid in Passes(rows, allowed, n)
       <==> || pid in allowed
            || exists c :: Chain(rows, allowed, c) && rows[c[|c| - 1]].pid == pid && Drops(c) < n
  {
    if pid in Passes(rows, allowed, n) && pid !in allowed {
      var c := FoundByChain(rows, allowed, n, 0, pid);
    }
    PassesGrow(rows, allowed, 0, n);
    if c :| Chain(rows, allowed, c) && rows[c[|c| - 1]].pid == pid && Drops(c) < n {
      ChainFound(rows, allowed, c);
      PartialGrows(rows, Passes(rows, allowed, Drops(c)), c[|c| - 1] + 1, |rows|);
      DuringNext(rows, allowed, Drops(c));
      PassesGrow(rows, allowed, Drops(c) + 1, n);
    }
  }

  /** Every descendant hangs on a chain with fewer than n drops. */
  ghost predicate ShallowChains(rows: seq<Row>, allowed: set<int>, n: nat) {
    forall pid :: Descendant(rows, allowed, pid) && pid !in allowed ==>
      exists c :: Chain(rows, allowed, c) && rows[c[|c| - 1]].pid == pid && Drops(c) < n
  }

  /** n passes suffice if and only if the table's chains are shallow. */
  lemma CompleteExactly(rows: seq<Row>, allowed: set<int>, n: nat)
    ensures (forall pid :: pid in Passes(rows, allowed, n) <==> Descendant(rows, allowed, pid))
       <==> ShallowChains(rows, allowed, n)
  {
    PassesDescend(rows, allowed, n);
    forall pid
      ensures pid in Passes(rows, allowed, n)
         <==> || pid in allowed
              || exists c :: Chain(rows, allowed, c) && rows[c[|c| - 1]].pid == pid && Drops(c) < n
    {
      PassesByChains(rows, allowed, n, pid);
    }
  }

  // ---- the audit ---------------------------------------------------------------------

  const PASSES := 10

  predicate Busy(row: Row, own: set<int>) {
    row.comm in BUILDERS && Running(row.state) && row.pid !in own
  }

  function BuilderReport(rows: seq<Row>, own: set<int>): seq<(int, string)> {
    if rows == [] then [] else
      var init, row := rows[..|rows| - 1], rows[|rows| - 1];
      BuilderReport(init, own) + if Busy(row, own) then [(row.pid, row.comm)] else []
  }

  function GpuReport(gpu: seq<int>, own: set<int>): seq<(int, string)> {
    if gpu == [] then [] else
      var init, pid := gpu[..|gpu| - 1], gpu[|gpu| - 1];
      GpuReport(init, own) + if pid !in own then [(pid, "GPU compute")] else []
  }

  lemma {:induction false} BuilderReported(rows: seq<Row>, own: set<int>, p: (int, string))
    ensures p in BuilderReport(rows, own)
       <==> exists i :: 0 <= i < |rows| && Busy(rows[i], own) && p == (rows[i].pid, rows[i].comm)
  {
    if rows != [] {
      var init := rows[..|rows| - 1];
      BuilderReported(init, own, p);
      assert forall i :: 0 <= i < |init| ==> init[i] == rows[i];
    }
  }

  lemma {:induction false} GpuReported(gpu: seq<int>, own: set<int>, p: (int, string))
    ensures p in GpuReport(gpu, own) <==> exists i :: 0 <= i < |gpu| && gpu[i] !in own && p == (gpu[i], "GPU compute")
  {
    if gpu != [] {
      var init := gpu[..|gpu| - 1];
      GpuReported(init, own, p);
      assert forall i :: 0 <= i < |init| ==> init[i] == gpu[i];
    }
  }

  /** The reports list the rows in order, each by its own merits. */
  lemma {:induction false} BuilderReportConcat(a: seq<Row>, b: seq<Row>, own: set<int>)
    ensures BuilderReport(a + b, own) == BuilderReport(a, own) + BuilderReport(b, own)
    ensures |a| == 1 ==>
              BuilderReport(a, own) ==
              if a[0].comm in BUILDERS && a[0].pid !in own && (a[0].state == "" || a[0].state[0] !in {'T', 'Z'})
              then [(a[0].pid, a[0].comm)] else []
  {
    if |a| == 1 {
      assert a[..0] == [] && BuilderReport(a[..0], own) == [];
    }
    if b == [] {
      assert a + b == a;
    } else {
      assert (a + b)[..|a + b| - 1] == a + b[..|b| - 1];
      BuilderReportConcat(a, b[..|b| - 1], own);
    }
  }

  lemma {:induction false} GpuReportConcat(a: seq<int>, b: seq<int>, own: set<int>)
    ensures GpuReport(a + b, own) == GpuReport(a, own) + GpuReport(b, own)
    ensures |a| == 1 ==> GpuReport(a, own) == if a[0] in own then [] else [(a[0], "GPU compute")]
  {
    if |a| == 1 {
      assert a[..0] == [] && GpuReport(a[..0], own) == [];
    }
    if b == [] {
      assert a + b == a;
    } else {
      assert (a + b)[..|a + b| - 1] == a + b[..|b| - 1];
      GpuReportConcat(a, b[..|b| - 1], own);
    }
  }

  /** The report in order: running builders, then GPU processes, outside the set grown
      by ten passes. */
  method Audit(rows: seq<Row>, gpu: seq<int>, allowed: set<int>) returns (report: seq<(int, string)>)
    ensures var own := Passes(rows, allowed, PASSES); report == BuilderReport(rows, own) + GpuReport(gpu, own)
  {
    var own := allowed;
    var n := 0;
    while n < PASSES
      invariant 0 <= n <= PASSES && own == Passes(rows, allowed, n)
    {
      own := OnePass(rows, own);
      n := n + 1;
    }
    report := [];
    var i := 0;
    while i < |rows|
      invariant 0 <= i <= |rows| && report == BuilderReport(rows[..i], own)
    {
      assert rows[..i + 1][..i] == rows[..i];
      if Busy(rows[i], own) {
        report := report + [(rows[i].pid, rows[i].comm)];
      }
      i := i + 1;
    }
    assert rows[..i] == rows;
    i := 0;
    while i < |gpu|
      invariant 0 <= i <= |gpu| && report == BuilderReport(rows, own) + GpuReport(gpu[..i], own)
    {
      assert gpu[..i + 1][..i] == gpu[..i];
      if gpu[i] !in own {
        report := report + [(gpu[i], "GPU compute")];
      }
      i := i + 1;
    }
    assert gpu[..i] == gpu;
  }

  /** A running builder is reported if and only if it is outside the grown set; the set
      holds only descendants, and all of those within ten generations. */
  lemma ReportedExactly(rows: seq<Row>, allowed: set<int>, i: nat)
    requires i < |rows| && rows[i].comm in BUILDERS && (rows[i].state == "" || rows[i].state[0] !in {'T', 'Z'})
    ensures var own := Passes(rows, allowed, PASSES);
            && ((rows[i].pid, rows[i].comm) in BuilderReport(rows, own) <==> rows[i].pid !in own)
            && (!Descendant(rows, allowed, rows[i].pid) ==> (rows[i].pid, rows[i].comm) in BuilderReport(rows, own))
            && (rows[i].pid in Generation(rows, allowed, PASSES) ==>
                  (rows[i].pid, rows[i].comm) !in BuilderReport(rows, own))
  {
    var own := Passes(rows, allowed, PASSES);
    PassesDescend(rows, allowed, PASSES);
    PassesReach(rows, allowed, PASSES);
    hide Passes;
    hide BuilderReport;
    BuilderReported(rows, own, (rows[i].pid, rows[i].comm));
  }

  method OnePass(rows: seq<Row>, own: set<int>) returns (grown: set<int>)
    ensures grown == Pass(rows, own)
  {
    grown := own;
    var i := 0;
    while i < |rows|
      invariant 0 <= i <= |rows|
      invariant Pass(rows[i..], grown) == Pass(rows, own)
    {
      if rows[i].ppid in grown {
        grown := grown + {rows[i].pid};
      }
      i := i + 1;
    }
  }

  function UpTo(k: int): (r: set<int>)
    ensures forall x :: x in r <==> 0 <= x <= k
    decreases k + 1
  {
    if k < 0 then {} else UpTo(k - 1) + {k}
  }

  /** Each row's parent is listed right after it: a chain in reverse order. */
  ghost predicate ReversedChain(rows: seq<Row>) {
    forall i :: 0 <= i < |rows| ==> rows[i].pid == |rows| - i && rows[i].ppid == |rows| - i - 1
  }

  /** On a reversed chain every pass adds one generation only, so ten passes miss
      whatever is deeper than ten generations. */
  lemma {:induction false} ReversedChainGrowsSlowly(rows: seq<Row>, k: nat)
    requires ReversedChain(rows) && k <= |rows|
    ensures Passes(rows, {0}, k) == UpTo(k)
  {
    if k > 0 {
      ReversedChainGrowsSlowly(rows, k - 1);
      ReversedPass(rows, k - 1, 0);
      assert rows[0..] == rows;
    }
  }

  lemma {:induction false} ReversedPass(rows: seq<Row>, k: nat, i: nat)
    requires ReversedChain(rows) && k < |rows| && i <= |rows|
    ensures i + k < |rows| ==> Pass(rows[i..], UpTo(k)) == UpTo(k + 1)
    ensures i + k >= |rows| ==> Pass(rows[i..], UpTo(k + 1)) == UpTo(k + 1)
    decreases |rows| - i
  {
    if i < |rows| {
      ReversedPass(rows, k, i + 1);
      assert rows[i..][1..] == rows[i + 1..] && rows[i..][0] == rows[i];
      if i + k >= |rows| {
        assert UpTo(k + 1) + {rows[i].pid} == UpTo(k + 1);
      }
    }
  }

  /** Eleven nested builds, listed youngest first. */
  function YoungestFirst(): seq<Row> {
    seq(11, i => Row(11 - i, 10 - i, "R", "ninja"))
  }

  /** Ten passes miss the youngest, although it descends from the allowed pid 0: its
      running builder is reported. */
  lemma TenPassesMissOne()
    ensures var own := Passes(YoungestFirst(), {0}, PASSES);
            && Descendant(YoungestFirst(), {0}, 11) && 11 !in own
            && (11, "ninja") in BuilderReport(YoungestFirst(), own)
  {
    var rows := YoungestFirst();
    ReversedChainGrowsSlowly(rows, PASSES);
    ReversedChainGrowsSlowly(rows, 11);
    PassesDescend(rows, {0}, 11);
    hide Passes;
    assert 11 in UpTo(11) && 11 !in UpTo(10);
    hide UpTo;
    BuilderReported(rows, Passes(rows, {0}, PASSES), (11, "ninja"));
    assert rows[0] == Row(11, 10, "R", "ninja") && Busy(rows[0], Passes(rows, {0}, PASSES));
  }
}
