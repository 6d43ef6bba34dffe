/** What a sort needs in memory (sio.c), in bytes: 36 beside each record in a merge buffer, 65536 for the output of a phase, and 16 to spare. */
module SortLimits {
  import opened SortKey
  import opened SortPhases
  import opened SortRun

  lemma Fits(a: int, b: int, c: int)
    requires b > 0
    ensures a / b >= c <==> a >= b * c
  {
    if a >= b * c {
      DivideUp(a, b, c);
    } else {
      Cancel(b, a / b, c);
    }
  }

  /** THE MEMORY OF A SORT: two megabytes unless it is asked for otherwise, less four, and never less than two records with what is beside them
      and 65532 bytes. As many records are held as fit in it with their order entries, less one. */
  lemma MemoryMeans(size: int, reclen: nat, numeric: bool, n: int)
    ensures var asked := (if size == 0 then 2 * 1024 * 1024 else size) - 4;
            var least := 2 * (reclen + 36 + if numeric then 1 else 0) + 65532;
            BufInit(size, reclen, numeric) == if asked < least then least else asked
    ensures var memsize := BufInit(size, reclen, numeric);
            MaxRec(memsize, reclen, numeric) >= n <==> memsize - 16 >= (reclen + 4 + if numeric then 1 else 0) * (n + 1)
  {
    var memsize := BufInit(size, reclen, numeric);
    Fits(memsize - 16, reclen + 4 + (if numeric then 1 else 0), n + 1);
  }

  /** WHEN THE PHASES SUFFICE: two records fit beside the output of a phase, or there are no more than 34 runs and a record of each fits. */
  lemma PhasesMean(memsize: int, reclen: nat, runs: nat)
    ensures PhasesSuffice(memsize, reclen, runs) <==>
      && reclen > 0 && memsize >= 65552
      && (memsize - 65552 >= (reclen + 36) * 2 || (runs <= 34 && memsize - 16 >= (reclen + 36) * runs))
  {
    if reclen > 0 && memsize >= 65552 {
      Fits(memsize - 65552, reclen + 36, 2);
      Fits(memsize - 16, reclen + 36, runs);
    }
  }

  /** HOW MANY RUNS ARE MERGED AT A TIME: all of them if there are no more than 34 and a record of each fits. Otherwise p runs, with a record of
      each beside the output of a phase, where p is at most 34 and as small as can be for two phases to be enough. */
  lemma PassMeans(memsize: int, reclen: nat, runs: nat)
    requires MemoryOk(memsize, reclen) && PhasesSuffice(memsize, reclen, runs) && runs >= 2
    ensures var p := PassCount(memsize, reclen, runs);
            && 2 <= p <= 34 && p <= runs
            && (runs <= 34 && memsize - 16 >= (reclen + 36) * runs ==> p == runs)
            && (p < runs ==> memsize - 65552 >= (reclen + 36) * p && (p - 1) * (p - 1) < runs)
            && (p < runs && p < 34 && memsize - 65552 >= (reclen + 36) * (p + 1) ==> p * p >= runs)
  {
    var q, p := Buffers(memsize, reclen, runs), PassCount(memsize, reclen, runs);
    PassProgress(memsize, reclen, runs);
    Fits(memsize - 16, reclen + 36, runs);
    Fits(memsize - 65552, reclen + 36, p);
    Fits(memsize - 65552, reclen + 36, p + 1);
    if q < runs {
      ReducedBounds(q, runs);
    }
  }
}
