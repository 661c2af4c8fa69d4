/**
 * The kernel monitor's command interpreter (kern/monitor.c): the in-place
 * tokenizer of runcmd, the lookup of the command table by name, the resume
 * and step commands, the naming used by the envs command, and the monitor
 * loop that runs until a command asks it to exit.
 *
 * Lines come from readline, which is not part of this model: the monitor
 * reads them from a given sequence.  The commands that only print or that
 * read raw memory and page tables keep their one modelled effect, returning
 * 0.
 */
module Monitor {
  import opened Machine
  import opened EnvLayout
  import opened Pmap
  import opened EnvTable

  const NUL: char := '\0'
  const MAXARGS: nat := 16

  /** WHITESPACE = "\t\r\n " */
  predicate IsWhite(c: char)
  {
    c == '\t' || c == '\r' || c == '\n' || c == ' '
  }

  // ---------------------------------------------------------------------
  // C strings
  // ---------------------------------------------------------------------

  /** The index of the first NUL at or after `i`. */
  function StrlenFrom(t: seq<char>, i: nat): (n: nat)
    requires i <= |t| && NUL in t[i..]
    decreases |t| - i
    ensures i <= n < |t| && t[n] == NUL
    ensures forall j :: i <= j < n ==> t[j] != NUL
  {
    assert t[i..] == [t[i]] + t[i + 1..];
    if t[i] == NUL then i else StrlenFrom(t, i + 1)
  }

  /** The line a NUL-terminated buffer holds. */
  function LineOf(t: seq<char>): (s: seq<char>)
    requires NUL in t
    ensures NUL !in s && |s| < |t| && s == t[..|s|] && t[|s|] == NUL
  {
    assert t[0..] == t;
    t[..StrlenFrom(t, 0)]
  }

  /** The C string starting at `i`: the characters up to the next NUL or the end. */
  function CStr(t: seq<char>, i: nat): seq<char>
    requires i <= |t|
    decreases |t| - i
  {
    if i == |t| || t[i] == NUL then [] else [t[i]] + CStr(t, i + 1)
  }

  // ---------------------------------------------------------------------
  // Words of a line
  // ---------------------------------------------------------------------

  /** An argument begins at `i`: a non-whitespace character after whitespace or at the start. */
  predicate IsWordStart(s: seq<char>, i: nat)
  {
    i < |s| && !IsWhite(s[i]) && (i == 0 || IsWhite(s[i - 1]))
  }

  /** Where the argument at `i` ends: the next whitespace character, or the end of the line. */
  function WordEnd(s: seq<char>, i: nat): (j: nat)
    requires i <= |s|
    decreases |s| - i
    ensures i <= j <= |s| && (j == |s| || IsWhite(s[j]))
    ensures forall m :: i <= m < j ==> !IsWhite(s[m])
  {
    if i == |s| || IsWhite(s[i]) then i else WordEnd(s, i + 1)
  }

  /** The argument starting at `i`: a maximal run of non-whitespace characters. */
  function Word(s: seq<char>, i: nat): seq<char>
    requires i <= |s|
  {
    s[i..WordEnd(s, i)]
  }

  /** The positions below `m` where arguments begin, in increasing order. */
  function StartsBelow(s: seq<char>, m: nat): (st: seq<nat>)
    requires m <= |s|
    ensures forall k :: 0 <= k < |st| ==> st[k] < m
  {
    if m == 0 then []
    else StartsBelow(s, m - 1) + (if IsWordStart(s, m - 1) then [m - 1] else [])
  }

  /**
   * StartsBelow lists exactly the argument starts below `m`, each once, in
   * increasing order.
   */
  lemma {:induction false} StartsBelowSpec(s: seq<char>, m: nat)
    requires m <= |s|
    ensures forall k :: 0 <= k < |StartsBelow(s, m)| ==> IsWordStart(s, StartsBelow(s, m)[k])
    ensures forall k, l :: 0 <= k < l < |StartsBelow(s, m)| ==> StartsBelow(s, m)[k] < StartsBelow(s, m)[l]
    ensures forall i :: 0 <= i < m && IsWordStart(s, i) ==> i in StartsBelow(s, m)
  {
    if m > 0 {
      StartsBelowSpec(s, m - 1);
    }
  }

  /** A line that is empty or all whitespace has no arguments, so runcmd runs nothing. */
  lemma BlankLineRunsNothing(s: seq<char>)
    requires forall i :: 0 <= i < |s| ==> IsWhite(s[i])
    ensures WordStarts(s) == []
  {
    NoStartsBetween(s, 0, |s|);
  }

  /** Every argument of the line, in order. */
  function WordStarts(s: seq<char>): seq<nat>
  {
    StartsBelow(s, |s|)
  }

  /** Extending the range only appends: the starts below `m` are a prefix of those below `m'`. */
  lemma {:induction false} StartsPrefix(s: seq<char>, m: nat, m': nat)
    requires m <= m' <= |s|
    decreases m' - m
    ensures StartsBelow(s, m) <= StartsBelow(s, m')
  {
    if m < m' {
      StartsPrefix(s, m, m' - 1);
    }
  }

  /** No argument begins inside [p, q) when each position there is whitespace or continues a word. */
  lemma {:induction false} NoStartsBetween(s: seq<char>, p: nat, q: nat)
    requires p <= q <= |s|
    requires forall j :: p <= j < q ==> !IsWordStart(s, j)
    decreases q - p
    ensures StartsBelow(s, q) == StartsBelow(s, p)
  {
    if p < q {
      NoStartsBetween(s, p, q - 1);
      assert !IsWordStart(s, q - 1);
    }
  }

  /** What whitespace turns into once the tokenizer has passed it. */
  function Nulled(c: char): char
  {
    if IsWhite(c) then NUL else c
  }

  /**
   * After the tokenizer, the C string at each argument start is exactly that
   * argument: the word ends where the first whitespace character, now NUL,
   * stood, or at the terminating NUL.
   */
  lemma {:induction false} ArgIsWord(t: seq<char>, s: seq<char>, i: nat)
    requires |s| < |t| && t[|s|] == NUL && NUL !in s
    requires forall j :: 0 <= j < |s| ==> t[j] == Nulled(s[j])
    requires i <= |s|
    decreases |s| - i
    ensures CStr(t, i) == Word(s, i)
  {
    if i == |s| {
    } else if IsWhite(s[i]) {
      assert t[i] == NUL;
    } else {
      assert t[i] == s[i] && s[i] != NUL;
      ArgIsWord(t, s, i + 1);
      assert WordEnd(s, i) == WordEnd(s, i + 1);
      assert s[i..WordEnd(s, i)] == [s[i]] + s[i + 1..WordEnd(s, i + 1)];
    }
  }

  // ---------------------------------------------------------------------
  // runcmd: the tokenizer
  // ---------------------------------------------------------------------

  /** The tokenizer's progress: everything before `p` has been passed, the rest is untouched. */
  ghost predicate PassedUpTo(buf: array<char>, t0: seq<char>, p: nat)
    reads buf
  {
    buf.Length == |t0| && p <= |t0|
    && (forall j :: 0 <= j < p ==> buf[j] == Nulled(t0[j]))
    && (forall j :: p <= j < |t0| ==> buf[j] == t0[j])
  }

  /** Gobble whitespace from `p`, overwriting it with NUL; stop at an argument or at the end. */
  method SkipWhite(buf: array<char>, p: nat, ghost t0: seq<char>, ghost s: seq<char>) returns (q: nat)
    requires NUL in t0 && s == LineOf(t0)
    requires p <= |s| && PassedUpTo(buf, t0, p)
    modifies buf
    ensures p <= q <= |s| && PassedUpTo(buf, t0, q)
    ensures q == |s| || !IsWhite(s[q])
    ensures forall j :: p <= j < q ==> IsWhite(s[j])
  {
    q := p;
    while buf[q] != NUL && IsWhite(buf[q])
      invariant p <= q <= |s| && PassedUpTo(buf, t0, q)
      invariant forall j :: p <= j < q ==> IsWhite(s[j])
      decreases |s| - q
    {
      buf[q] := NUL;
      q := q + 1;
    }
  }

  /** Scan past the argument that starts at `q`. */
  method SkipWord(buf: array<char>, q: nat, ghost t0: seq<char>, ghost s: seq<char>) returns (r: nat)
    requires NUL in t0 && s == LineOf(t0)
    requires q < |s| && PassedUpTo(buf, t0, q)
    ensures q < r <= |s| && (r == |s| || IsWhite(s[r]))
    ensures forall j :: q < j < r ==> !IsWhite(s[j])
  {
    r := q + 1;
    while buf[r] != NUL && !IsWhite(buf[r])
      invariant q < r <= |s|
      invariant forall j :: q < j < r ==> !IsWhite(s[j])
      decreases |s| - r
    {
      r := r + 1;
    }
  }

  /**
   * Past a run of whitespace from a word boundary `p` to `q`, no argument has
   * begun; if the line goes on, an argument begins at `q`.
   */
  lemma AfterWhite(s: seq<char>, p: nat, q: nat)
    requires p <= q <= |s| && (p == 0 || p == |s| || IsWhite(s[p]))
    requires forall j :: p <= j < q ==> IsWhite(s[j])
    requires q == |s| || !IsWhite(s[q])
    ensures StartsBelow(s, q) == StartsBelow(s, p)
    ensures q < |s| ==> IsWordStart(s, q) && StartsBelow(s, q + 1) == StartsBelow(s, p) + [q]
  {
    NoStartsBetween(s, p, q);
  }

  /** When the sixteenth argument begins at `q`, the first fifteen are those before it. */
  lemma SixteenthArg(s: seq<char>, q: nat, argv: seq<nat>)
    requires q < |s| && |argv| == MAXARGS - 1 && StartsBelow(s, q + 1) == argv + [q]
    ensures |WordStarts(s)| >= MAXARGS
    ensures WordStarts(s)[..MAXARGS - 1] == argv && WordStarts(s)[MAXARGS - 1] == q
  {
    StartsPrefix(s, q + 1, |s|);
  }

  /**
   * The parsing half of runcmd.  Whitespace is overwritten with NUL as it is
   * skipped; `argv` receives the start of each argument.  When a sixteenth
   * argument appears (argc has reached MAXARGS-1 with more input) the parse
   * stops with `tooMany`, having passed the buffer up to that argument only.
   */
  method Tokenize(buf: array<char>) returns (argv: seq<nat>, tooMany: bool)
    requires NUL in buf[..]
    modifies buf
    ensures var s := LineOf(old(buf[..])); var st := WordStarts(s);
      && (tooMany <==> |st| >= MAXARGS)
      && (!tooMany ==> argv == st && PassedUpTo(buf, old(buf[..]), |s|))
      && (tooMany ==> argv == st[..MAXARGS - 1] && PassedUpTo(buf, old(buf[..]), st[MAXARGS - 1]))
  {
    ghost var t0 := buf[..];
    ghost var s := LineOf(t0);
    argv := [];
    var p := 0;
    while true
      invariant p <= |s| && PassedUpTo(buf, t0, p)
      invariant argv == StartsBelow(s, p) && |argv| < MAXARGS
      invariant p == 0 || p == |s| || IsWhite(s[p])
      decreases |s| - p
    {
      var q := SkipWhite(buf, p, t0, s);
      AfterWhite(s, p, q);
      if buf[q] == NUL {
        return argv, false;
      }
      if |argv| == MAXARGS - 1 {
        SixteenthArg(s, q, argv);
        return argv, true;
      }
      argv := argv + [q];
      var r := SkipWord(buf, q, t0, s);
      NoStartsBetween(s, q + 1, r);
      p := r;
    }
  }

  // ---------------------------------------------------------------------
  // The command table
  // ---------------------------------------------------------------------

  const Commands: seq<seq<char>> := [
    "help", "kerninfo", "backtrace", "envbacktrace", "showmap", "permset",
    "dumppa", "dumpva", "resume", "step", "cpuid", "uscan", "kscan", "envs"]

  const RESUME: nat := 8
  const STEP: nat := 9
  const ENVS: nat := 13

  /** The first command at index `i` or later whose name is `name`. */
  function FindCommand(name: seq<char>, i: nat): Option<nat>
    requires i <= |Commands|
    decreases |Commands| - i
  {
    if i == |Commands| then None
    else if Commands[i] == name then Some(i)
    else FindCommand(name, i + 1)
  }

  /** FindCommand gives the first entry named `name`, and nothing only when no entry is. */
  lemma {:induction false} FindCommandSpec(name: seq<char>, i: nat)
    requires i <= |Commands|
    decreases |Commands| - i
    ensures var c := FindCommand(name, i);
      && (c.Some? ==> i <= c.value < |Commands| && Commands[c.value] == name)
      && (c.Some? ==> forall j :: i <= j < c.value ==> Commands[j] != name)
      && (c.None? <==> forall j :: i <= j < |Commands| ==> Commands[j] != name)
  {
    if i < |Commands| && Commands[i] != name {
      FindCommandSpec(name, i + 1);
    }
  }

  /** The lookup loop of runcmd: the first table entry whose name is `name` (strcmp). */
  method LookupCommand(name: seq<char>) returns (c: Option<nat>)
    ensures c.Some? ==> c.value < |Commands| && Commands[c.value] == name
    ensures c.None? <==> name !in Commands
    ensures c == FindCommand(name, 0)
  {
    var i := 0;
    while i < |Commands|
      invariant i <= |Commands|
      invariant FindCommand(name, 0) == FindCommand(name, i)
    {
      if Commands[i] == name {
        return Some(i);
      }
      i := i + 1;
    }
    FindCommandSpec(name, 0);
    return None;
  }

  // ---------------------------------------------------------------------
  // runcmd as a whole
  // ---------------------------------------------------------------------

  /**
   * The command runcmd invokes for line `s`: none for a blank line, for too
   * many arguments, or for an unknown name; otherwise the first table entry
   * named by the first argument.
   */
  function Invoked(s: seq<char>): Option<nat>
  {
    var st := WordStarts(s);
    if |st| == 0 || |st| >= MAXARGS then None
    else FindCommand(Word(s, st[0]), 0)
  }

  /** What the invoked command returns: resume and step give -1 when there is a curenv. */
  function CommandResult(c: Option<nat>, hasCurenv: bool): (r: int)
    ensures r < 0 <==> hasCurenv && (c == Some(RESUME) || c == Some(STEP))
    ensures r == 0 || r == -1
  {
    if (c == Some(RESUME) || c == Some(STEP)) && hasCurenv then -1 else 0
  }

  /** What mon_step does to curenv: eflags |= FL_TF. */
  function Stepped(e: Env): Env
  {
    e.(tf := e.tf.(eflags := SetTrapFlag(e.tf.eflags)))
  }

  /**
   * runcmd(buf, tf): tokenize, look the first argument up and run it.  Only
   * step with a curenv changes kernel state.
   */
  method RunCmd(k: Kernel, buf: array<char>) returns (r: int)
    requires k.Valid() && NUL in buf[..]
    modifies buf, k.envs
    ensures k.Valid()
    ensures r == CommandResult(Invoked(LineOf(old(buf[..]))), k.cur.Some?)
    ensures if Invoked(LineOf(old(buf[..]))) == Some(STEP) && k.cur.Some?
      then k.envs[..] == old(k.envs[..])[k.cur.value := Stepped(old(k.envs[k.cur.value]))]
      else k.envs[..] == old(k.envs[..])
  {
    ghost var t0 := buf[..];
    ghost var s := LineOf(t0);
    var argv, tooMany := Tokenize(buf);
    if tooMany {
      return 0;
    }
    if |argv| == 0 {
      return 0;
    }
    ArgIsWord(buf[..], s, argv[0]);
    var c := LookupCommand(CStr(buf[..], argv[0]));
    if c == Some(RESUME) {
      r := if k.cur.Some? then -1 else 0;
    } else if c == Some(STEP) {
      if k.cur.Some? {
        var i := k.cur.value;
        assert IdOk(k.envs[..][i], i) && Wf(k.envs[..][i].pgdir);
        k.SetEnv(i, Stepped(k.envs[i]));
        r := -1;
      } else {
        r := 0;
      }
    } else {
      r := 0;
    }
  }

  /** The command runcmd invokes for a line readline returned. */
  function LineCommand(line: seq<char>): Option<nat>
  {
    Invoked(LineOf(line + [NUL]))
  }

  /** The monitor leaves its loop on this line exactly when the command returns a negative value. */
  predicate Exits(line: seq<char>, hasCurenv: bool)
  {
    CommandResult(LineCommand(line), hasCurenv) < 0
  }

  /** The position of the first of `lines` that makes the monitor exit, if any. */
  function ExitLine(lines: seq<seq<char>>, hasCurenv: bool): (j: Option<nat>)
    ensures j.Some? ==> j.value < |lines| && Exits(lines[j.value], hasCurenv)
    ensures j.Some? ==> forall i :: 0 <= i < j.value ==> !Exits(lines[i], hasCurenv)
    ensures j.None? <==> forall i :: 0 <= i < |lines| ==> !Exits(lines[i], hasCurenv)
  {
    if lines == [] then None
    else if Exits(lines[0], hasCurenv) then Some(0)
    else match ExitLine(lines[1..], hasCurenv)
      case None => None
      case Some(j) => Some(j + 1)
  }

  /** The table after runcmd on `line`: only step with a curenv changes it. */
  function AfterLine(tbl: seq<Env>, cur: Option<nat>, line: seq<char>): seq<Env>
    requires cur.Some? ==> cur.value < |tbl|
  {
    if LineCommand(line) == Some(STEP) && cur.Some? then tbl[cur.value := Stepped(tbl[cur.value])] else tbl
  }

  /** One round of the monitor loop: readline's buffer holds `line`, and runcmd runs on it. */
  method RunLine(k: Kernel, line: seq<char>) returns (r: int)
    requires k.Valid()
    modifies k.envs
    ensures k.Valid()
    ensures r == CommandResult(LineCommand(line), k.cur.Some?)
    ensures k.envs[..] == AfterLine(old(k.envs[..]), k.cur, line)
  {
    var buf := new char[|line| + 1](i requires 0 <= i <= |line| => if i < |line| then line[i] else NUL);
    assert buf[..] == line + [NUL];
    r := RunCmd(k, buf);
  }

  /**
   * monitor(tf): run the lines one by one until a command returns a negative
   * value.  `ran` lines ran without asking to exit; then either line `ran`
   * made the monitor exit, or the lines ran out (`exited` false) and the
   * monitor is still waiting for input.
   */
  method Monitor(k: Kernel, lines: seq<seq<char>>) returns (exited: bool, ran: nat)
    requires k.Valid()
    modifies k.envs
    ensures k.Valid()
    ensures ran <= |lines|
    ensures forall j :: 0 <= j < ran ==> !Exits(lines[j], k.cur.Some?)
    ensures exited ==> ran < |lines| && Exits(lines[ran], k.cur.Some?)
    ensures !exited ==> ran == |lines|
    ensures k.envs[..] == if exited then AfterLine(old(k.envs[..]), k.cur, lines[ran]) else old(k.envs[..])
    ensures exited <==> ExitLine(lines, k.cur.Some?).Some?
    ensures exited ==> ran == ExitLine(lines, k.cur.Some?).value
  {
    ghost var hasCur := k.cur.Some?;
    ran := 0;
    while ran < |lines|
      invariant ran <= |lines| && k.Valid() && hasCur == k.cur.Some?
      invariant forall j :: 0 <= j < ran ==> !Exits(lines[j], hasCur)
      invariant k.envs[..] == old(k.envs[..])
    {
      var r := RunLine(k, lines[ran]);
      if r < 0 {
        return true, ran;
      }
      ran := ran + 1;
    }
    return false, ran;
  }

  // ---------------------------------------------------------------------
  // mon_envs
  // ---------------------------------------------------------------------

  function StatusName(s: EnvStatus): string
  {
    match s
    case Running => "RUNNING"
    case Runnable => "RUNNABLE"
    case Dying => "DYING"
    case NotRunnable => "NOT_RUNNABLE"
    case Free => "???"
  }

  function TypeName(t: EnvType): string
  {
    match t
    case User => "USER"
    case Idle => "IDLE"
    case FileServer => "FS"
    case NetServer => "???"
  }

  /** One line of the envs listing: id, type name, status name. */
  datatype EnvLine = EnvLine(id: int, typeName: string, statusName: string)

  /** The line mon_envs prints for slot `e`. */
  function EnvLineOf(e: Env): EnvLine
  {
    EnvLine(e.id, TypeName(e.envType), StatusName(e.status))
  }

  /** The slots below `m` that are not free. */
  ghost function NonFree(tbl: seq<Env>, m: nat): set<nat>
    requires m <= |tbl|
  {
    set i: nat | i < m && tbl[i].status != Free
  }

  /** One slot further, NonFree gains that slot exactly when it is not free. */
  lemma NonFreeStep(tbl: seq<Env>, m: nat)
    requires m < |tbl|
    ensures NonFree(tbl, m + 1) == NonFree(tbl, m) + (if tbl[m].status != Free then {m} else {})
    ensures |NonFree(tbl, m + 1)| == |NonFree(tbl, m)| + (if tbl[m].status != Free then 1 else 0)
  {
    assert NonFree(tbl, m + 1) == NonFree(tbl, m) + (if tbl[m].status != Free then {m} else {});
  }

  /** How many of the first `m` slots are not free, counted one slot at a time. */
  function Before(tbl: seq<Env>, m: nat): nat
    requires m <= |tbl|
  {
    if m == 0 then 0 else Before(tbl, m - 1) + (if tbl[m - 1].status != Free then 1 else 0)
  }

  /** That count is the number of slots in NonFree. */
  lemma {:induction false} BeforeCounts(tbl: seq<Env>, m: nat)
    requires m <= |tbl|
    ensures Before(tbl, m) == |NonFree(tbl, m)|
  {
    if m == 0 {
      assert NonFree(tbl, 0) == {};
    } else {
      BeforeCounts(tbl, m - 1);
      NonFreeStep(tbl, m - 1);
    }
  }

  /**
   * `ls` lists the first `m` slots in slot order: the line of a slot that
   * is not free stands at the place given by the number of such slots
   * before it, and there is one line per such slot.
   */
  ghost predicate ListsSlots(tbl: seq<Env>, m: nat, ls: seq<EnvLine>)
    requires m <= |tbl|
  {
    && |ls| == Before(tbl, m)
    && (forall i {:trigger Before(tbl, i)} :: 0 <= i < m && tbl[i].status != Free ==>
          Before(tbl, i) < |ls| && ls[Before(tbl, i)] == EnvLineOf(tbl[i]))
  }

  /** Appending the line of slot `m` when it is not free lists one slot more. */
  lemma ListsStep(tbl: seq<Env>, m: nat, ls: seq<EnvLine>)
    requires m < |tbl| && ListsSlots(tbl, m, ls)
    ensures ListsSlots(tbl, m + 1, ls + (if tbl[m].status != Free then [EnvLineOf(tbl[m])] else []))
  {
    var ls' := ls + (if tbl[m].status != Free then [EnvLineOf(tbl[m])] else []);
    forall i | 0 <= i < m && tbl[i].status != Free
      ensures Before(tbl, i) < |ls'| && ls'[Before(tbl, i)] == EnvLineOf(tbl[i])
    {
      assert ls'[Before(tbl, i)] == ls[Before(tbl, i)];
    }
  }

  /** The listing mon_envs prints for the first `m` slots. */
  function Listing(tbl: seq<Env>, m: nat): seq<EnvLine>
    requires m <= |tbl|
  {
    if m == 0 then []
    else Listing(tbl, m - 1) + (if tbl[m - 1].status != Free then [EnvLineOf(tbl[m - 1])] else [])
  }

  /**
   * The listing has one line per slot that is not free, in slot order, and
   * never the status name "???".
   */
  lemma {:induction false} ListingSpec(tbl: seq<Env>, m: nat)
    requires m <= |tbl|
    ensures ListsSlots(tbl, m, Listing(tbl, m)) && |Listing(tbl, m)| == |NonFree(tbl, m)|
    ensures forall l :: l in Listing(tbl, m) ==> l.statusName != "???"
  {
    BeforeCounts(tbl, m);
    if m > 0 {
      ListingSpec(tbl, m - 1);
      ListsStep(tbl, m - 1, Listing(tbl, m - 1));
    }
  }

  /** Every line of the listing is the line of a slot that is not free. */
  lemma {:induction false} ListingSound(tbl: seq<Env>, m: nat)
    requires m <= |tbl|
    ensures forall l :: l in Listing(tbl, m) ==>
      exists i :: 0 <= i < m && tbl[i].status != Free && l == EnvLineOf(tbl[i])
  {
    if m > 0 {
      ListingSound(tbl, m - 1);
      forall l | l in Listing(tbl, m)
        ensures exists i :: 0 <= i < m && tbl[i].status != Free && l == EnvLineOf(tbl[i])
      {
        if l !in Listing(tbl, m - 1) {
          assert l == EnvLineOf(tbl[m - 1]);
        }
      }
    }
  }

  /** Listing keeps slot order: a slot that is not free is listed before every later one. */
  lemma {:induction false} ListingOrder(tbl: seq<Env>, i: nat, j: nat)
    requires i < j <= |tbl| && tbl[i].status != Free
    ensures Before(tbl, i) < Before(tbl, j)
    decreases j
  {
    if i < j - 1 {
      ListingOrder(tbl, i, j - 1);
    }
  }

  /** mon_envs: list every slot that is not free. */
  method MonEnvs(k: Kernel) returns (ls: seq<EnvLine>)
    requires k.Valid()
    ensures ls == Listing(k.envs[..], NENV)
  {
    ls := [];
    for i := 0 to NENV
      invariant ls == Listing(k.envs[..], i)
    {
      var e := k.envs[i];
      if e.status != Free {
        ls := ls + [EnvLineOf(e)];
      }
    }
  }
}
