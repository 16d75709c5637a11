/**
 Names of trace files, `dir/app@host.` followed by the process id, task and thread in fixed
 decimal widths and an extension, and the listing of such files: ids are read back from the
 end of the name, files sorted by process id, and applications separated.
 */
module TraceNames {

  const DIGITS_PID: nat := 10
  const DIGITS_TASK: nat := 6
  const DIGITS_THREAD: nat := 6
  const EXT_MPIT := ".mpit"

  const INT_LIMIT: nat := 0x8000_0000

  // ---------------------------------------------------------------- printing

  function Pow10(n: nat): nat {
    if n == 0 then 1 else 10 * Pow10(n - 1)
  }

  function Digit(d: nat): char
    requires d < 10
  {
    ('0' as int + d) as char
  }

  function Decimal(n: nat): string {
    if n < 10 then [Digit(n)] else Decimal(n / 10) + [Digit(n % 10)]
  }

  /** A number printed with at least so many digits. */
  function Printed(n: nat, digits: nat): string {
    var s := Decimal(n);
    if |s| < digits then Zeros(digits - |s|) + s else s
  }

  function Zeros(n: nat): string {
    seq(n, _ => '0')
  }

  function IdDigits(pid: nat, task: nat, thread: nat): string {
    Printed(pid, DIGITS_PID) + Printed(task, DIGITS_TASK) + Printed(thread, DIGITS_THREAD)
  }

  function FileName(path: string, prefix: string, host: string, pid: nat, task: nat, thread: nat, ext: string): string {
    path + "/" + prefix + "@" + host + "." + IdDigits(pid, task, thread) + ext
  }

  // ---------------------------------------------------------------- reading

  ghost predicate AllDigits(s: string) {
    forall i :: 0 <= i < |s| ==> '0' <= s[i] <= '9'
  }

  /** What the characters stand for when they are digits. */
  function Number(s: string): int {
    if s == [] then 0 else 10 * Number(s[..|s| - 1]) + (s[|s| - 1] as int - '0' as int)
  }

  /** The value brought into the range of `int`. */
  function Int32(x: int): int {
    (x + INT_LIMIT) % (2 * INT_LIMIT) - INT_LIMIT
  }

  /** What the accumulating loop makes of the characters. */
  function Accumulated(s: string): int {
    if s == [] then 0 else Int32(Int32(Accumulated(s[..|s| - 1]) * 10) + (s[|s| - 1] as int - '0' as int))
  }

  method ReadNumber(name: string, start: nat, digits: nat) returns (value: int)
    requires start + digits <= |name|
    ensures value == Accumulated(name[start..start + digits])
  {
    value := 0;
    var i := 0;
    while i < digits
      invariant i <= digits && value == Accumulated(name[start..start + i])
    {
      var read := name[start..start + i + 1];
      assert read[..|read| - 1] == name[start..start + i];
      value := Int32(Int32(value * 10) + (name[start + i] as int - '0' as int));
      i := i + 1;
    }
  }

  /** The shortest name the ids can be read from. */
  const IDS: nat := DIGITS_PID + DIGITS_TASK + DIGITS_THREAD + |EXT_MPIT|

  function TaskOf(name: string): int
    requires IDS <= |name|
  {
    var start := |name| - |EXT_MPIT| - DIGITS_TASK - DIGITS_THREAD;
    Accumulated(name[start..start + DIGITS_TASK])
  }

  function PidOf(name: string): int
    requires IDS <= |name|
  {
    var start := |name| - |EXT_MPIT| - DIGITS_PID - DIGITS_TASK - DIGITS_THREAD;
    Accumulated(name[start..start + DIGITS_PID])
  }

  // ---------------------------------------------------------------- digits and numbers

  lemma {:induction false} DecimalIsRead(n: nat)
    ensures AllDigits(Decimal(n)) && Number(Decimal(n)) == n
  {
    if n >= 10 {
      DecimalIsRead(n / 10);
      assert Decimal(n)[..|Decimal(n)| - 1] == Decimal(n / 10);
    } else {
      assert Decimal(n)[..0] == [];
    }
  }

  lemma {:induction false} DecimalLength(n: nat, digits: nat)
    requires digits > 0
    ensures |Decimal(n)| <= digits <==> n < Pow10(digits)
  {
    if digits == 1 {
      assert Pow10(1) == 10;
    } else if n >= 10 {
      DecimalLength(n / 10, digits - 1);
    } else {
      Pow10Bound(digits);
    }
  }

  lemma {:induction false} Pow10Bound(digits: nat)
    requires digits > 0
    ensures Pow10(digits) >= 10
  {
    if digits > 1 {
      Pow10Bound(digits - 1);
    }
  }

  lemma {:induction false} LeadingZeros(k: nat, s: string)
    ensures Number(Zeros(k) + s) == Number(s)
  {
    var z := Zeros(k) + s;
    if s != [] {
      LeadingZeros(k, s[..|s| - 1]);
      assert z[..|z| - 1] == Zeros(k) + s[..|s| - 1];
    } else if k > 0 {
      LeadingZeros(k - 1, s);
      assert z[..|z| - 1] == Zeros(k - 1) + s;
    }
  }

  /** A printed number has the fixed width exactly if it is small enough, and always stands for itself. */
  lemma PrintedIsRead(n: nat, digits: nat)
    requires digits > 0
    ensures AllDigits(Printed(n, digits)) && Number(Printed(n, digits)) == n
    ensures |Printed(n, digits)| >= digits
    ensures |Printed(n, digits)| == digits <==> n < Pow10(digits)
  {
    hide Decimal, Number, Pow10;
    DecimalIsRead(n);
    DecimalLength(n, digits);
    var s := Decimal(n);
    if |s| < digits {
      LeadingZeros(digits - |s|, s);
    }
  }

  lemma {:induction false} NumberBound(s: string)
    requires AllDigits(s)
    ensures 0 <= Number(s) < Pow10(|s|)
  {
    if s != [] {
      NumberBound(s[..|s| - 1]);
    }
  }

  /** Every value the loop goes through is an `int`. */
  ghost predicate NeverOverflows(s: string) {
    forall k :: 0 <= k <= |s| ==> Number(s[..k]) < INT_LIMIT
  }

  /** Reading digits goes past an `int` on the way exactly if the number itself is past it, and otherwise reads the
      number. */
  lemma {:induction false} OverflowsIffTooLarge(s: string)
    requires AllDigits(s)
    ensures NeverOverflows(s) <==> Number(s) < 0x8000_0000
    ensures Number(s) < 0x8000_0000 ==> Accumulated(s) == Number(s)
  {
    if s == [] {
    } else {
      var front := s[..|s| - 1];
      NumberBound(front);
      OverflowsIffTooLarge(front);
      assert s[..|s|] == s;
      assert forall k :: 0 <= k <= |front| ==> front[..k] == s[..k];
      FitsInt32(Number(front), s[|s| - 1] as int - '0' as int);
    }
  }

  lemma FitsInt32(x: int, d: int)
    requires 0 <= x && 0 <= d < 10
    ensures 10 * x + d < INT_LIMIT ==> x < INT_LIMIT && Int32(Int32(x * 10) + d) == 10 * x + d
  {
  }

  // ---------------------------------------------------------------- the round trip

  /** The part of a name before the ids. */
  function Head(path: string, prefix: string, host: string): string {
    path + "/" + prefix + "@" + host + "."
  }

  lemma NameParts(path: string, prefix: string, host: string, pid: nat, task: nat, thread: nat, ext: string)
    ensures FileName(path, prefix, host, pid, task, thread, ext)
         == Head(path, prefix, host)
            + Printed(pid, DIGITS_PID) + Printed(task, DIGITS_TASK) + Printed(thread, DIGITS_THREAD) + ext
  {
    hide Printed;
    var h, a, b, c := Head(path, prefix, host), Printed(pid, DIGITS_PID), Printed(task, DIGITS_TASK),
      Printed(thread, DIGITS_THREAD);
    assert h + (a + b + c) + ext == h + a + b + c + ext;
  }

  /** A name, from its parts: ten digits of the process id, six each of the task and the thread. */
  lemma NameLayout(path: string, prefix: string, host: string, pid: nat, task: nat, thread: nat, ext: string)
    requires pid < 0x8000_0000 && task < 1_000_000 && thread < 1_000_000
    ensures var digits := IdDigits(pid, task, thread);
      && FileName(path, prefix, host, pid, task, thread, ext)
         == path + "/" + prefix + "@" + host + "." + digits + ext
      && |digits| == 22 && AllDigits(digits)
      && Number(digits[..10]) == pid && Number(digits[10..16]) == task && Number(digits[16..]) == thread
  {
    hide Printed, Number, Pow10;
    Limits();
    PrintedIsRead(pid, DIGITS_PID);
    PrintedIsRead(task, DIGITS_TASK);
    PrintedIsRead(thread, DIGITS_THREAD);
    var a, b, c := Printed(pid, DIGITS_PID), Printed(task, DIGITS_TASK), Printed(thread, DIGITS_THREAD);
    var digits := a + b + c;
    assert digits[..10] == a && digits[10..16] == b && digits[16..] == c;
  }

  lemma Limits()
    ensures Pow10(DIGITS_TASK) == Pow10(DIGITS_THREAD) == 1_000_000
    ensures INT_LIMIT < Pow10(DIGITS_PID)
  {
    assert Pow10(3) == 1000;
  }

  /** Task and process id are read back from a name whatever stands before the ids, and no value on the way
      overflows. */
  lemma NameRoundTrip(path: string, prefix: string, host: string, pid: nat, task: nat, thread: nat)
    requires pid < 0x8000_0000 && task < 1_000_000 && thread < 1_000_000
    ensures var name := FileName(path, prefix, host, pid, task, thread, ".mpit");
      && IDS <= |name|
      && TaskOf(name) == task && PidOf(name) == pid
      && NeverOverflows(Printed(pid, DIGITS_PID)) && NeverOverflows(Printed(task, DIGITS_TASK))
  {
    hide Printed, Number, Accumulated, Pow10, Head, NeverOverflows, FileName;
    NameParts(path, prefix, host, pid, task, thread, ".mpit");
    Limits();
    var h, a, b, c := Head(path, prefix, host), Printed(pid, DIGITS_PID), Printed(task, DIGITS_TASK),
      Printed(thread, DIGITS_THREAD);
    PrintedIsRead(pid, DIGITS_PID);
    PrintedIsRead(task, DIGITS_TASK);
    PrintedIsRead(thread, DIGITS_THREAD);
    OverflowsIffTooLarge(a);
    OverflowsIffTooLarge(b);
    var name := h + a + b + c + EXT_MPIT;
    assert name[|h|..|h| + |a|] == a;
    assert name[|h| + |a|..|h| + |a| + |b|] == b;
  }

  /** A task number is read back exactly if it has no more than its six digits. */
  lemma TaskReadIff(path: string, prefix: string, host: string, pid: nat, task: nat, thread: nat)
    requires thread < 1_000_000
    ensures var name := FileName(path, prefix, host, pid, task, thread, ".mpit");
      IDS <= |name| && (TaskOf(name) == task <==> task < 1_000_000)
  {
    hide Printed, Number, Accumulated, Pow10, Head, NeverOverflows, FileName;
    NameParts(path, prefix, host, pid, task, thread, ".mpit");
    Limits();
    var h, a, b, c := Head(path, prefix, host), Printed(pid, DIGITS_PID), Printed(task, DIGITS_TASK),
      Printed(thread, DIGITS_THREAD);
    PrintedIsRead(pid, DIGITS_PID);
    PrintedIsRead(task, DIGITS_TASK);
    PrintedIsRead(thread, DIGITS_THREAD);
    var name := h + a + b + c + EXT_MPIT;
    var read := b[|b| - DIGITS_TASK..];
    var start := |name| - |EXT_MPIT| - DIGITS_TASK - DIGITS_THREAD;
    assert name[start..start + DIGITS_TASK] == read;
    NumberBound(read);
    OverflowsIffTooLarge(read);
    if |b| == DIGITS_TASK {
      assert read == b;
    }
  }

  /** Names with the same text have the same ids and the same beginning: no two tasks share a file. */
  lemma NamesDiffer(path: string, prefix: string, host: string, pid: nat, task: nat, thread: nat,
                    path': string, prefix': string, host': string, pid': nat, task': nat, thread': nat, ext: string)
    requires pid < 0x8000_0000 && task < 1_000_000 && thread < 1_000_000
    requires pid' < 0x8000_0000 && task' < 1_000_000 && thread' < 1_000_000
    requires FileName(path, prefix, host, pid, task, thread, ext)
          == FileName(path', prefix', host', pid', task', thread', ext)
    ensures pid == pid' && task == task' && thread == thread' && Head(path, prefix, host) == Head(path', prefix', host')
  {
    hide Printed, Number, Pow10, Head, FileName;
    NameParts(path, prefix, host, pid, task, thread, ext);
    NameParts(path', prefix', host', pid', task', thread', ext);
    Limits();
    PrintedIsRead(pid, DIGITS_PID);
    PrintedIsRead(task, DIGITS_TASK);
    PrintedIsRead(thread, DIGITS_THREAD);
    PrintedIsRead(pid', DIGITS_PID);
    PrintedIsRead(task', DIGITS_TASK);
    PrintedIsRead(thread', DIGITS_THREAD);
    var h, a, b, c := Head(path, prefix, host), Printed(pid, DIGITS_PID), Printed(task, DIGITS_TASK),
      Printed(thread, DIGITS_THREAD);
    var h', a', b', c' := Head(path', prefix', host'), Printed(pid', DIGITS_PID), Printed(task', DIGITS_TASK),
      Printed(thread', DIGITS_THREAD);
    SplitEqual(h + a + b + c, ext, h' + a' + b' + c', ext);
    SplitEqual(h + a + b, c, h' + a' + b', c');
    SplitEqual(h + a, b, h' + a', b');
    SplitEqual(h, a, h', a');
  }

  lemma SplitEqual(s: string, t: string, s': string, t': string)
    requires s + t == s' + t' && |t| == |t'|
    ensures s == s' && t == t'
  {
    assert s == (s + t)[..|s|] && t == (s + t)[|s|..];
    assert s' == (s' + t')[..|s'|] && t' == (s' + t')[|s'|..];
  }

  // ---------------------------------------------------------------- sorting and listing

  /** `SortFilesByTime_cbk`. */
  method CompareFiles(s1: string, s2: string) returns (c: int)
    requires IDS <= |s1| && IDS <= |s2|
    ensures c == Compare(s1, s2)
  {
    var pid1 := ReadNumber(s1, |s1| - |EXT_MPIT| - DIGITS_PID - DIGITS_TASK - DIGITS_THREAD, DIGITS_PID);
    var pid2 := ReadNumber(s2, |s2| - |EXT_MPIT| - DIGITS_PID - DIGITS_TASK - DIGITS_THREAD, DIGITS_PID);
    if pid1 == pid2 {
      return 0;
    } else if pid1 > pid2 {
      return 1;
    } else {
      return -1;
    }
  }

  function Compare(s1: string, s2: string): int
    requires IDS <= |s1| && IDS <= |s2|
  {
    if PidOf(s1) == PidOf(s2) then 0 else if PidOf(s1) > PidOf(s2) then 1 else -1
  }

  /** On printed names it is the order of the process ids. */
  lemma ComparesPids(path: string, prefix: string, host: string, pid: nat, task: nat, thread: nat,
                     path': string, prefix': string, host': string, pid': nat, task': nat, thread': nat)
    requires pid < 0x8000_0000 && task < 1_000_000 && thread < 1_000_000
    requires pid' < 0x8000_0000 && task' < 1_000_000 && thread' < 1_000_000
    ensures var a := FileName(path, prefix, host, pid, task, thread, ".mpit");
      var b := FileName(path', prefix', host', pid', task', thread', ".mpit");
      && IDS <= |a| && IDS <= |b|
      && (Compare(a, b) <= 0 <==> pid <= pid') && (Compare(a, b) == 0 <==> pid == pid')
  {
    hide FileName, PidOf;
    NameRoundTrip(path, prefix, host, pid, task, thread);
    NameRoundTrip(path', prefix', host', pid', task', thread');
  }

  datatype Line = Separator | Named(name: string) | NamedProcess(name: string, pid: int)

  ghost predicate LongEnough(files: seq<string>) {
    forall i :: 0 <= i < |files| ==> IDS <= |files[i]|
  }

  /** The listing of the first n files: a line each, with a separator before each later file of task 0. */
  function Listing(files: seq<string>, pidlabel: bool, n: nat): seq<Line>
    requires LongEnough(files) && n <= |files|
  {
    if n == 0 then [] else
      Listing(files, pidlabel, n - 1)
      + (if SeparatorBefore(files, n - 1) then [Separator] else [])
      + [if pidlabel then NamedProcess(files[n - 1], PidOf(files[n - 1])) else Named(files[n - 1])]
  }

  predicate SeparatorBefore(files: seq<string>, j: nat)
    requires LongEnough(files) && j < |files|
  {
    j > 0 && TaskOf(files[j]) == 0
  }

  /** Line at[j] of the listing is the one of file j; before a later file of task 0 there is one separator, and nothing
      else is listed. */
  lemma {:induction false} ListingLayout(files: seq<string>, pidlabel: bool, n: nat) returns (at: seq<nat>)
    requires LongEnough(files) && n <= |files|
    ensures var out := Listing(files, pidlabel, n);
      && |at| == n && (forall j :: 0 <= j < n ==> at[j] < |out|)
      && (forall j :: 0 <= j < n ==>
            out[at[j]] == if pidlabel then NamedProcess(files[j], PidOf(files[j])) else Named(files[j]))
      && (n == 0 ==> out == []) && (n > 0 ==> at[0] == 0 && at[n - 1] == |out| - 1)
      && forall j :: 0 < j < n ==>
           if TaskOf(files[j]) == 0 then at[j] == at[j - 1] + 2 && out[at[j] - 1] == Separator
           else at[j] == at[j - 1] + 1
  {
    hide TaskOf, PidOf, Listing;
    if n == 0 {
      NothingListed(files, pidlabel);
      at := [];
    } else {
      var before := ListingLayout(files, pidlabel, n - 1);
      ListingStep(files, pidlabel, n - 1);
      at := before + [|Listing(files, pidlabel, n)| - 1];
      assert forall j :: 0 <= j < n - 1 ==> at[j] == before[j];
    }
  }

  lemma NothingListed(files: seq<string>, pidlabel: bool)
    requires LongEnough(files)
    ensures Listing(files, pidlabel, 0) == []
  {
  }

  lemma ListingStep(files: seq<string>, pidlabel: bool, n: nat)
    requires LongEnough(files) && n < |files|
    ensures var before, out := Listing(files, pidlabel, n), Listing(files, pidlabel, n + 1);
      var separated := n > 0 && TaskOf(files[n]) == 0;
      && |out| == |before| + (if separated then 2 else 1) && (forall k :: 0 <= k < |before| ==> out[k] == before[k])
      && out[|out| - 1] == (if pidlabel then NamedProcess(files[n], PidOf(files[n])) else Named(files[n]))
      && (separated ==> out[|out| - 2] == Separator)
  {
    hide TaskOf, PidOf;
  }

  /** `DumpFiles`. */
  method DumpFiles(files: seq<string>, pidlabel: bool) returns (out: seq<Line>)
    requires LongEnough(files)
    ensures out == Listing(files, pidlabel, |files|)
  {
    out := [];
    for j := 0 to |files|
      invariant out == Listing(files, pidlabel, j)
    {
      var name := files[j];
      var task := ReadNumber(name, |name| - |EXT_MPIT| - DIGITS_TASK - DIGITS_THREAD, DIGITS_TASK);
      var pid := ReadNumber(name, |name| - |EXT_MPIT| - DIGITS_PID - DIGITS_TASK - DIGITS_THREAD, DIGITS_PID);
      if task == 0 && j > 0 {
        out := out + [Separator];
      }
      if pidlabel {
        out := out + [NamedProcess(name, pid)];
      } else {
        out := out + [Named(name)];
      }
    }
  }

  /** What sorting with the comparison guarantees; files of one process id can come in any order. */
  ghost predicate Sorted(files: seq<string>)
    requires LongEnough(files)
  {
    forall i, j :: 0 <= i <= j < |files| ==> Compare(files[i], files[j]) <= 0
  }

  /** The separators stand exactly where the process id changes. */
  ghost predicate SeparatesApplications(files: seq<string>)
    requires LongEnough(files)
  {
    forall j: nat :: 0 < j < |files| ==> (SeparatorBefore(files, j) <==> PidOf(files[j]) != PidOf(files[j - 1]))
  }

  /** The separators are right whatever order sorting puts files of one process id in. */
  ghost predicate AlwaysSeparates(files: seq<string>)
    requires LongEnough(files)
  {
    forall o :: IsOrder(o, files) ==> SeparatesApplications(o)
  }

  ghost predicate IsOrder(o: seq<string>, files: seq<string>)
    requires LongEnough(files)
    ensures IsOrder(o, files) ==> LongEnough(o)
  {
    if multiset(o) == multiset(files) then
      SameNames(o, files);
      Sorted(o)
    else false
  }

  lemma SameNames(o: seq<string>, files: seq<string>)
    requires LongEnough(files) && multiset(o) == multiset(files)
    ensures LongEnough(o)
  {
    forall i | 0 <= i < |o| ensures IDS <= |o[i]| {
      assert o[i] in multiset(files);
    }
  }

  /** Another file has the same process id. */
  ghost predicate Shared(files: seq<string>, i: nat)
    requires LongEnough(files) && i < |files|
  {
    exists j :: 0 <= j < |files| && j != i && PidOf(files[j]) == PidOf(files[i])
  }

  ghost predicate SmallestPid(files: seq<string>, i: nat)
    requires LongEnough(files) && i < |files|
  {
    forall j :: 0 <= j < |files| ==> PidOf(files[i]) <= PidOf(files[j])
  }

  /** A file of task 0 is the only one of its process, and a file of another task belongs to the first process. */
  ghost predicate Separable(files: seq<string>)
    requires LongEnough(files)
  {
    forall i: nat :: i < |files| ==> if TaskOf(files[i]) == 0 then !Shared(files, i) else SmallestPid(files, i)
  }

  lemma PidsAscend(files: seq<string>)
    requires LongEnough(files) && Sorted(files)
    ensures forall i, j :: 0 <= i <= j < |files| ==> PidOf(files[i]) <= PidOf(files[j])
  {
    hide PidOf;
    forall i, j | 0 <= i <= j < |files| ensures PidOf(files[i]) <= PidOf(files[j]) {
      assert Compare(files[i], files[j]) <= 0;
    }
  }

  /** `files` without file i. */
  function Without(files: seq<string>, i: nat): seq<string>
    requires i < |files|
  {
    files[..i] + files[i + 1..]
  }

  lemma WithoutOne(files: seq<string>, i: nat)
    requires i < |files|
    ensures multiset(files) == multiset(Without(files, i)) + multiset{files[i]}
    ensures LongEnough(files) ==> LongEnough(Without(files, i))
  {
    assert files == files[..i] + [files[i]] + files[i + 1..];
  }

  lemma RestHolds(files: seq<string>, i: nat, x: string)
    requires i < |files|
    ensures x in Without(files, i) <==> exists j :: 0 <= j < |files| && j != i && files[j] == x
  {
    var rest := Without(files, i);
    if j :| 0 <= j < |files| && j != i && files[j] == x {
      assert rest[if j < i then j else j - 1] == x;
    }
    if x in rest {
      var k :| 0 <= k < |rest| && rest[k] == x;
      assert files[if k < i then k else k + 1] == x;
    }
  }

  lemma SharedIffInRest(files: seq<string>, i: nat)
    requires LongEnough(files) && i < |files|
    ensures Shared(files, i) <==> exists x :: x in Without(files, i) && IDS <= |x| && PidOf(x) == PidOf(files[i])
  {
    hide PidOf, Without;
    if Shared(files, i) {
      var j :| 0 <= j < |files| && j != i && PidOf(files[j]) == PidOf(files[i]);
      RestHolds(files, i, files[j]);
    }
    if x :| x in Without(files, i) && IDS <= |x| && PidOf(x) == PidOf(files[i]) {
      RestHolds(files, i, x);
    }
  }

  /** The condition does not depend on the order of the files. */
  lemma SharedInAnyOrder(files: seq<string>, o: seq<string>, i: nat, k: nat)
    requires LongEnough(files) && LongEnough(o) && multiset(o) == multiset(files)
    requires i < |files| && k < |o| && files[i] == o[k]
    ensures Shared(files, i) <==> Shared(o, k)
    ensures SmallestPid(files, i) <==> SmallestPid(o, k)
  {
    hide PidOf, Shared, Without;
    WithoutOne(files, i);
    WithoutOne(o, k);
    SharedIffInRest(files, i);
    SharedIffInRest(o, k);
    var r, q := Without(files, i), Without(o, k);
    assert multiset(r) == multiset(files) - multiset{files[i]} && multiset(q) == multiset(o) - multiset{o[k]};
    assert forall x :: x in r <==> x in multiset(r);
    assert forall x :: x in q <==> x in multiset(q);
    assert forall x :: x in files <==> x in multiset(files);
    assert forall x :: x in o <==> x in multiset(o);
    if SmallestPid(files, i) {
      forall j | 0 <= j < |o| ensures PidOf(o[k]) <= PidOf(o[j]) {
        assert o[j] in files;
      }
    }
    if SmallestPid(o, k) {
      forall j | 0 <= j < |files| ensures PidOf(files[i]) <= PidOf(files[j]) {
        assert files[j] in o;
      }
    }
  }

  lemma SeparableInAnyOrder(files: seq<string>, o: seq<string>)
    requires LongEnough(files) && IsOrder(o, files) && Separable(files)
    ensures Separable(o)
  {
    hide PidOf, TaskOf, Shared, SmallestPid;
    forall k: nat | k < |o| ensures if TaskOf(o[k]) == 0 then !Shared(o, k) else SmallestPid(o, k) {
      assert o[k] in multiset(files);
      var i :| 0 <= i < |files| && files[i] == o[k];
      SharedInAnyOrder(files, o, i, k);
    }
  }

  /** A separable list that is sorted is separated rightly. */
  lemma SeparableSeparates(o: seq<string>)
    requires LongEnough(o) && Sorted(o) && Separable(o)
    ensures SeparatesApplications(o)
  {
    hide PidOf, TaskOf;
    PidsAscend(o);
    forall j: nat | 0 < j < |o| ensures SeparatorBefore(o, j) <==> PidOf(o[j]) != PidOf(o[j - 1]) {
      if TaskOf(o[j]) != 0 {
        assert SmallestPid(o, j);
      }
    }
  }

  /** Where a file can go into a sorted list: behind all with its process id, or in front of them. */
  lemma {:induction false} Place(o: seq<string>, x: string, behind: bool) returns (p: nat)
    requires LongEnough(o) && Sorted(o) && IDS <= |x|
    ensures p <= |o|
    ensures forall q :: 0 <= q < p ==> PidOf(o[q]) < PidOf(x) || (behind && PidOf(o[q]) == PidOf(x))
    ensures forall q :: p <= q < |o| ==> PidOf(o[q]) > PidOf(x) || (!behind && PidOf(o[q]) == PidOf(x))
  {
    hide PidOf;
    PidsAscend(o);
    p := |o|;
    if o != [] {
      var last := o[|o| - 1];
      if PidOf(last) > PidOf(x) || (!behind && PidOf(last) == PidOf(x)) {
        p := Place(o[..|o| - 1], x, behind);
      }
    }
  }

  function Placed(o: seq<string>, x: string, p: nat): seq<string>
    requires p <= |o|
  {
    o[..p] + [x] + o[p..]
  }

  lemma PlacedIsSorted(o: seq<string>, x: string, p: nat)
    requires LongEnough(o) && Sorted(o) && IDS <= |x| && p <= |o|
    requires forall q :: 0 <= q < p ==> PidOf(o[q]) <= PidOf(x)
    requires forall q :: p <= q < |o| ==> PidOf(o[q]) >= PidOf(x)
    ensures LongEnough(Placed(o, x, p)) && Sorted(Placed(o, x, p))
    ensures multiset(Placed(o, x, p)) == multiset(o) + multiset{x}
  {
    hide PidOf, Sorted;
    PlacedFiles(o, x, p);
    PidsAscend(o);
    var r := Placed(o, x, p);
    forall i | 0 <= i < |r| ensures IDS <= |r[i]| {
    }
    forall i, j | 0 <= i <= j < |r| ensures PidOf(r[i]) <= PidOf(r[j]) {
    }
    SortedIfAscending(r);
  }

  lemma PlacedFiles(o: seq<string>, x: string, p: nat)
    requires p <= |o|
    ensures multiset(Placed(o, x, p)) == multiset(o) + multiset{x} && |Placed(o, x, p)| == |o| + 1
    ensures forall i :: 0 <= i <= |o| ==> Placed(o, x, p)[i] == if i < p then o[i] else if i == p then x else o[i - 1]
  {
    assert o == o[..p] + o[p..];
  }

  lemma SortedIfAscending(o: seq<string>)
    requires LongEnough(o) && forall i, j :: 0 <= i <= j < |o| ==> PidOf(o[i]) <= PidOf(o[j])
    ensures Sorted(o)
  {
    hide PidOf;
  }

  /** Files can be sorted. */
  lemma {:induction false} SomeOrder(files: seq<string>) returns (o: seq<string>)
    requires LongEnough(files)
    ensures IsOrder(o, files)
  {
    hide PidOf;
    if files == [] {
      o := [];
    } else {
      var n := |files| - 1;
      WithoutOne(files, n);
      var rest := Without(files, n);
      var before := SomeOrder(rest);
      var p := Place(before, files[n], true);
      PlacedIsSorted(before, files[n], p);
      o := Placed(before, files[n], p);
    }
  }

  /** An order with a file behind, or in front of, the others of its process. */
  lemma OrderAround(files: seq<string>, i: nat, behind: bool) returns (o: seq<string>, p: nat)
    requires LongEnough(files) && i < |files|
    ensures IsOrder(o, files) && p < |o| && o[p] == files[i]
    ensures forall x ::
      x in Without(files, i) && IDS <= |x| && PidOf(x) <= PidOf(files[i]) && (behind || PidOf(x) < PidOf(files[i])) ==>
      p > 0 && PidOf(x) <= PidOf(o[p - 1])
    ensures behind && p > 0 ==> PidOf(o[p - 1]) <= PidOf(files[i])
    ensures !behind && p > 0 ==> PidOf(o[p - 1]) < PidOf(files[i])
  {
    hide PidOf, Without, Shared;
    WithoutOne(files, i);
    var rest, x := Without(files, i), files[i];
    var sorted := SomeOrder(rest);
    p := Place(sorted, x, behind);
    PlacedIsSorted(sorted, x, p);
    o := Placed(sorted, x, p);
    PidsAscend(sorted);
    forall y | y in rest && IDS <= |y| && PidOf(y) <= PidOf(x) && (behind || PidOf(y) < PidOf(x))
      ensures p > 0 && PidOf(y) <= PidOf(o[p - 1])
    {
      assert y in multiset(sorted);
      var q :| 0 <= q < |sorted| && sorted[q] == y;
      assert q < p && o[p - 1] == sorted[p - 1];
    }
    assert p > 0 ==> o[p - 1] == sorted[p - 1];
  }

  lemma SharedOrder(files: seq<string>, i: nat) returns (o: seq<string>, p: nat)
    requires LongEnough(files) && i < |files| && Shared(files, i)
    ensures IsOrder(o, files) && 0 < p < |o| && o[p] == files[i] && PidOf(o[p - 1]) == PidOf(o[p])
  {
    hide PidOf, Without, Shared, IsOrder;
    SharedIffInRest(files, i);
    o, p := OrderAround(files, i, true);
  }

  lemma LaterOrder(files: seq<string>, i: nat) returns (o: seq<string>, p: nat)
    requires LongEnough(files) && i < |files| && !SmallestPid(files, i)
    ensures IsOrder(o, files) && 0 < p < |o| && o[p] == files[i] && PidOf(o[p - 1]) != PidOf(o[p])
  {
    hide PidOf, IsOrder, Without;
    o, p := OrderAround(files, i, false);
    var j :| 0 <= j < |files| && PidOf(files[j]) < PidOf(files[i]);
    RestHolds(files, i, files[j]);
  }

  /** The separators are right in every order sorting can give exactly if each file of task 0 is the only one of its
      process, and all files of other tasks belong to the process that comes first. */
  lemma AlwaysSeparatesIff(files: seq<string>)
    requires LongEnough(files)
    ensures AlwaysSeparates(files) <==> Separable(files)
  {
    hide PidOf, TaskOf, Shared, SmallestPid, Sorted;
    if Separable(files) {
      forall o | IsOrder(o, files) ensures SeparatesApplications(o) {
        SeparableInAnyOrder(files, o);
        SeparableSeparates(o);
      }
    } else {
      var i: nat :| i < |files| && !(if TaskOf(files[i]) == 0 then !Shared(files, i) else SmallestPid(files, i));
      var o, p;
      if TaskOf(files[i]) == 0 {
        o, p := SharedOrder(files, i);
      } else {
        o, p := LaterOrder(files, i);
      }
      assert SeparatorBefore(o, p) <==> TaskOf(files[i]) == 0;
      assert !SeparatesApplications(o);
    }
  }

  ghost predicate HasTaskZero(files: seq<string>, pid: int)
    requires LongEnough(files)
  {
    exists i :: 0 <= i < |files| && PidOf(files[i]) == pid && TaskOf(files[i]) == 0
  }

  /** When every process has a task 0, the separators are always right exactly if every process has one file: with a
      second task, or a second thread of task 0, some order separates files of one process. */
  lemma AlwaysSeparatesIffOneFileEach(files: seq<string>)
    requires LongEnough(files)
    requires forall i :: 0 <= i < |files| ==> HasTaskZero(files, PidOf(files[i]))
    ensures AlwaysSeparates(files) <==> forall i, j :: 0 <= i < j < |files| ==> PidOf(files[i]) != PidOf(files[j])
  {
    hide PidOf, TaskOf, AlwaysSeparates;
    AlwaysSeparatesIff(files);
    if Separable(files) {
      forall i, j | 0 <= i < j < |files| ensures PidOf(files[i]) != PidOf(files[j]) {
        var k :| 0 <= k < |files| && PidOf(files[k]) == PidOf(files[i]) && TaskOf(files[k]) == 0;
        assert !Shared(files, k);
      }
    }
    if forall i, j :: 0 <= i < j < |files| ==> PidOf(files[i]) != PidOf(files[j]) {
      forall i: nat | i < |files| ensures TaskOf(files[i]) == 0 && !Shared(files, i) {
        var k :| 0 <= k < |files| && PidOf(files[k]) == PidOf(files[i]) && TaskOf(files[k]) == 0;
      }
    }
  }

  /** Two tasks of one process in the wrong order are sorted, and yet separated. */
  lemma SortingDoesNotSuffice(path: string, prefix: string, host: string, pid: nat)
    requires pid < 0x8000_0000
    ensures var files := [FileName(path, prefix, host, pid, 1, 0, ".mpit"),
      FileName(path, prefix, host, pid, 0, 0, ".mpit")];
      && LongEnough(files) && Sorted(files) && PidOf(files[0]) == PidOf(files[1]) && SeparatorBefore(files, 1)
  {
    hide FileName, PidOf, TaskOf;
    NameRoundTrip(path, prefix, host, pid, 1, 0);
    NameRoundTrip(path, prefix, host, pid, 0, 0);
  }

  /** Two threads of one task 0 are separated in either order. */
  lemma SecondThreadIsSeparated(path: string, prefix: string, host: string, pid: nat, first: nat, second: nat)
    requires pid < 0x8000_0000 && first < 1_000_000 && second < 1_000_000
    ensures var files := [FileName(path, prefix, host, pid, 0, first, ".mpit"),
      FileName(path, prefix, host, pid, 0, second, ".mpit")];
      && LongEnough(files) && Sorted(files) && PidOf(files[0]) == PidOf(files[1]) && SeparatorBefore(files, 1)
  {
    hide FileName, PidOf, TaskOf;
    NameRoundTrip(path, prefix, host, pid, 0, first);
    NameRoundTrip(path, prefix, host, pid, 0, second);
  }
}
