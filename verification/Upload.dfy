/**
 REST, STOR, APPE and RETR of plugin_server/source/ftp/cmd.c over files that are byte sequences. What the system calls
 return is a parameter.
 */
module Upload {
  import Bytes
  import opened Ctype

  type byte = Bytes.byte

  /** The files by absolute path, and the offset REST left for the next transfer. */
  datatype Session = Session(files: map<string, seq<byte>>, offset: int)

  datatype Reply = Usage501 | Error550 | Dropped | Done226 | Ok350

  /**
   One recv: bytes, of which write stores `stored`; or -1. A -1 becomes the largest size_t, write refuses that count
   with -1, and the two compare equal: no error is seen and the offset goes back by one.
   */
  datatype Recv = Chunk(data: seq<byte>, stored: nat) | RecvError
  type Received = r: Recv | r.Chunk? ==> 0 < |r.data| <= 0x4000 && r.stored <= |r.data| witness RecvError

  /** open, the 150 reply, the data connection, what arrives on it, ftruncate, and closing the data connection. */
  datatype Script = Script(opens: bool, greets: bool, connects: bool, recvs: seq<Received>,
                           truncates: bool, closes: bool)

  // ------------------------------------------------------------------- files

  /** The content cut or zero-padded to n bytes. */
  function Resize(f: seq<byte>, n: nat): (r: seq<byte>)
    ensures |r| == n
  {
    if n <= |f| then f[..n] else f + seq(n - |f|, _ => 0 as byte)
  }

  /** write at a position: a gap is filled with zeros, the rest of the file stays. */
  function WriteAt(f: seq<byte>, pos: nat, data: seq<byte>): (r: seq<byte>)
    ensures data != [] ==> |r| >= pos + |data|
  {
    if data == [] then f
    else Resize(f, pos) + data + if pos + |data| < |f| then f[pos + |data|..] else []
  }

  function Content(files: map<string, seq<byte>>, path: string): seq<byte> {
    if path in files then files[path] else []
  }

  /** ftp_abspath */
  function AbsPath(cwd: string, arg: string): string {
    if arg != "" && arg[0] == '/' then arg else cwd + "/" + arg
  }

  // ------------------------------------------------------------------- STOR

  /** The transfer loop: the file, the offset it counts, and whether a write failed. */
  datatype Loop = Loop(file: seq<byte>, off: int, failed: bool)

  function Receive(f: seq<byte>, pos: nat, off: int, recvs: seq<Received>): Loop
    decreases |recvs|
  {
    if recvs == [] then Loop(f, off, false)
    else if recvs[0].RecvError? then Receive(f, pos, off - 1, recvs[1..])
    else
      var data := recvs[0].data;
      var f1 := WriteAt(f, pos, data[..recvs[0].stored]);
      if recvs[0].stored < |data| then Loop(f1, off, true)
      else Receive(f1, pos + |data|, off + |data|, recvs[1..])
  }

  function Stor(s: Session, cwd: string, arg: string, script: Script): (Session, Reply) {
    var s0 := s.(offset := 0);
    if arg == "" then (s0, Usage501)
    else if !script.opens then (s0, Error550)
    else
      var path := AbsPath(cwd, arg);
      var f := Content(s.files, path);
      var created := s0.(files := s.files[path := f]);
      if s.offset < 0 then (created, Error550)
      else if !script.greets then (created, Dropped)
      else if !script.connects then (created, Error550)
      else
        var l := Receive(f, s.offset, s.offset, script.recvs);
        if l.failed || l.off < 0 || !script.truncates then (s0.(files := s.files[path := l.file]), Error550)
        else (s0.(files := s.files[path := Resize(l.file, l.off)]), if script.closes then Done226 else Error550)
  }

  // ------------------------------------------------------- REST, APPE, RETR

  predicate IsDigit(c: char) {
    '0' <= c <= '9'
  }

  /** The decimal digits at the start of a text, after `n`. */
  function Digits(s: string, n: nat): nat {
    if s == "" || !IsDigit(s[0]) then n else Digits(s[1..], 10 * n + (s[0] as int - '0' as int))
  }

  /** atol: spaces, a sign, digits; a value that does not fit a long stops at its limits. */
  function Atol(s: string): int
    decreases |s|
  {
    if s == "" then 0
    else if IsSpace(s[0]) then Atol(s[1..])
    else
      var v: int := if s[0] == '-' then 0 - Digits(s[1..], 0) else if s[0] == '+' then Digits(s[1..], 0)
          else Digits(s, 0);
      if v > 0x7fff_ffff_ffff_ffff then 0x7fff_ffff_ffff_ffff
      else if v < -0x8000_0000_0000_0000 then -0x8000_0000_0000_0000
      else v
  }

  function Rest(s: Session, arg: string): (Session, Reply) {
    if arg == "" then (s, Usage501) else (s.(offset := Atol(arg)), Ok350)
  }

  /** Without a pending offset the end of the file becomes one; the file must exist. */
  function Appe(s: Session, cwd: string, arg: string, script: Script): (Session, Reply) {
    if arg == "" then (s, Usage501)
    else if s.offset != 0 then Stor(s, cwd, arg, script)
    else
      var path := AbsPath(cwd, arg);
      if path !in s.files then (s, Error550)
      else Stor(s.(offset := |s.files[path]|), cwd, arg, script)
  }

  // ---------------------------------------------------------------- theorems

  /** Everything received, in order. */
  function Data(recvs: seq<Received>): seq<byte> {
    if recvs == [] then [] else (if recvs[0].Chunk? then recvs[0].data else []) + Data(recvs[1..])
  }

  function Errors(recvs: seq<Received>): nat {
    if recvs == [] then 0 else (if recvs[0].Chunk? then 0 else 1) + Errors(recvs[1..])
  }

  /** What reached the file: everything up to the first short write. */
  function Stored(recvs: seq<Received>): seq<byte> {
    if recvs == [] then []
    else if recvs[0].RecvError? then Stored(recvs[1..])
    else if recvs[0].stored < |recvs[0].data| then recvs[0].data[..recvs[0].stored]
    else recvs[0].data + Stored(recvs[1..])
  }

  lemma ResizeTwice(f: seq<byte>, n: nat, m: nat)
    requires m <= n
    ensures Resize(Resize(f, n), m) == Resize(f, m) && Resize(f, |f|) == f
  {
  }

  lemma WriteAtLaw(f: seq<byte>, pos: nat, data: seq<byte>)
    ensures Resize(WriteAt(f, pos, data), pos + |data|) == Resize(f, pos) + data
  {
  }

  /** Up to the position the loop has reached, the file is the old content at the start and then what was stored. */
  lemma {:induction false} ReceiveLaw(f: seq<byte>, pos: nat, off: int, recvs: seq<Received>)
    ensures var l := Receive(f, pos, off, recvs);
            && Resize(l.file, pos + |Stored(recvs)|) == Resize(f, pos) + Stored(recvs)
            && (!l.failed ==> Stored(recvs) == Data(recvs) && l.off == off + |Data(recvs)| - Errors(recvs))
    decreases |recvs|
  {
    hide Resize, WriteAt;
    if recvs == [] {
      assert Resize(f, pos) + [] == Resize(f, pos);
    } else if recvs[0].RecvError? {
      ReceiveLaw(f, pos, off - 1, recvs[1..]);
    } else {
      var Chunk(data, stored) := recvs[0];
      WriteAtLaw(f, pos, data[..stored]);
      if stored == |data| {
        assert data[..stored] == data;
        ReceiveLaw(WriteAt(f, pos, data), pos + |data|, off + |data|, recvs[1..]);
        assert Resize(f, pos) + data + Stored(recvs[1..]) == Resize(f, pos) + (data + Stored(recvs[1..]));
      }
    }
  }

  /** The pending offset is used up by every STOR, whatever happens; no other file changes. */
  lemma StorClearsOffset(s: Session, cwd: string, arg: string, script: Script)
    ensures var s' := Stor(s, cwd, arg, script).0;
            s'.offset == 0 && s'.files - {AbsPath(cwd, arg)} == s.files - {AbsPath(cwd, arg)}
  {
    hide Resize, WriteAt;
  }

  // ------------------------------------------------ when a transfer is done

  lemma CutIs(f: seq<byte>, n: nat)
    requires n <= |f|
    ensures Resize(f, n) == f[..n]
  {
  }

  /** Every chunk was stored whole. */
  predicate Whole(recvs: seq<Received>) {
    forall i :: 0 <= i < |recvs| && recvs[i].Chunk? ==> recvs[i].stored == |recvs[i].data|
  }

  /** Writing a text in one piece or in two. */
  lemma WriteAtTwice(f: seq<byte>, pos: nat, a: seq<byte>, b: seq<byte>)
    ensures WriteAt(WriteAt(f, pos, a), pos + |a|, b) == WriteAt(f, pos, a + b)
  {
    if a == [] {
      assert a + b == b;
    } else if b == [] {
      assert a + b == a;
    } else {
      assert |WriteAt(f, pos, a)| >= pos + |a|;
    }
  }

  /** write, byte by byte: the data at its position, zeros in a gap, the old bytes around it. */
  lemma WriteAtBytes(f: seq<byte>, pos: nat, data: seq<byte>, i: nat)
    requires data != [] && i < |WriteAt(f, pos, data)|
    ensures |WriteAt(f, pos, data)| == if |f| < pos + |data| then pos + |data| else |f|
    ensures WriteAt(f, pos, data)[i] ==
              if pos <= i < pos + |data| then data[i - pos] else if i < |f| then f[i] else 0
  {
  }

  /** The loop fails exactly when a chunk was not stored whole; the file is then what one write of the rest leaves. */
  lemma {:induction false} ReceiveIs(f: seq<byte>, pos: nat, off: int, recvs: seq<Received>)
    ensures var l := Receive(f, pos, off, recvs);
            && (l.failed <==> !Whole(recvs)) && l.file == WriteAt(f, pos, Stored(recvs))
            && (Whole(recvs) ==> Stored(recvs) == Data(recvs) && l.off == off + |Data(recvs)| - Errors(recvs))
    decreases |recvs|
  {
    hide WriteAt;
    if recvs != [] {
      WholeStep(recvs);
    }
    ReceiveLaw(f, pos, off, recvs);
    if recvs == [] {
      WriteNothing(f, pos);
    } else if recvs[0].RecvError? {
      ReceiveIs(f, pos, off - 1, recvs[1..]);
    } else {
      var Chunk(data, stored) := recvs[0];
      if stored == |data| {
        assert data[..stored] == data;
        ReceiveIs(WriteAt(f, pos, data), pos + |data|, off + |data|, recvs[1..]);
        WriteAtTwice(f, pos, data, Stored(recvs[1..]));
      }
    }
  }

  lemma WriteNothing(f: seq<byte>, pos: nat)
    ensures WriteAt(f, pos, []) == f
  {
  }

  lemma WholeStep(recvs: seq<Received>)
    requires recvs != []
    ensures Whole(recvs) <==> (recvs[0].Chunk? ==> recvs[0].stored == |recvs[0].data|) && Whole(recvs[1..])
  {
    if Whole(recvs) {
      forall i | 0 <= i < |recvs[1..]| && recvs[1..][i].Chunk? ensures recvs[1..][i].stored == |recvs[1..][i].data| {
        assert recvs[1..][i] == recvs[i + 1];
      }
    }
    if Whole(recvs[1..]) && (recvs[0].Chunk? ==> recvs[0].stored == |recvs[0].data|) {
      forall i | 0 <= i < |recvs| && recvs[i].Chunk? ensures recvs[i].stored == |recvs[i].data| {
        if i > 0 { assert recvs[i] == recvs[1..][i - 1]; }
      }
    }
  }

  /** The position the transfer ends at, as STOR counts it. */
  function EndOffset(s: Session, recvs: seq<Received>): int {
    s.offset + |Data(recvs)| - Errors(recvs)
  }

  /** STOR gets as far as the data connection. */
  predicate Connects(s: Session, arg: string, script: Script) {
    arg != "" && script.opens && s.offset >= 0 && script.greets && script.connects
  }

  /** The transfer is reported complete if and only if every step succeeds. */
  lemma StorDoneIff(s: Session, cwd: string, arg: string, script: Script)
    ensures Stor(s, cwd, arg, script).1 == Done226 <==>
              && arg != "" && script.opens && s.offset >= 0 && script.greets && script.connects
              && Whole(script.recvs) && EndOffset(s, script.recvs) >= 0 && script.truncates && script.closes
  {
    hide WriteAt, Resize, Receive, Whole;
    if s.offset >= 0 {
      ReceiveIs(Content(s.files, AbsPath(cwd, arg)), s.offset, s.offset, script.recvs);
    }
  }

  /**
   What every outcome answers and leaves: nothing without an argument or an open file; a created file before the data
   connection; what was stored, written over the old content, when the transfer breaks off; and, once the file is cut,
   the promised content less one byte for each recv error.
   */
  lemma StorLeaves(s: Session, cwd: string, arg: string, script: Script)
    ensures var (s', reply) := Stor(s, cwd, arg, script);
            var path := AbsPath(cwd, arg);
            var f := Content(s.files, path);
            && (arg == "" || !script.opens ==> s'.files == s.files)
            && (arg != "" && script.opens && !Connects(s, arg, script) ==> s'.files == s.files[path := f])
            && (Connects(s, arg, script) ==>
                  var end := EndOffset(s, script.recvs);
                  if Whole(script.recvs) && end >= 0 && script.truncates then
                    s'.files == s.files[path := (Resize(f, s.offset) + Data(script.recvs))[..end]]
                  else s'.files == s.files[path := WriteAt(f, s.offset, Stored(script.recvs))])
            && (reply == Usage501 <==> arg == "") && reply != Ok350
            && (reply == Dropped <==> arg != "" && script.opens && s.offset >= 0 && !script.greets)
  {
    hide WriteAt, Resize, Receive, Whole;
    var f := Content(s.files, AbsPath(cwd, arg));
    if Connects(s, arg, script) {
      ReceiveIs(f, s.offset, s.offset, script.recvs);
      ReceiveLaw(f, s.offset, s.offset, script.recvs);
      if Whole(script.recvs) && EndOffset(s, script.recvs) >= 0 {
        var want := Resize(f, s.offset) + Data(script.recvs);
        ResizeTwice(Receive(f, s.offset, s.offset, script.recvs).file, |want|, EndOffset(s, script.recvs));
        CutIs(want, EndOffset(s, script.recvs));
      }
    }
  }

  /** Every system call of a transfer succeeds. */
  predicate Succeeds(script: Script) {
    && script.opens && script.greets && script.connects && script.truncates && script.closes
    && Whole(script.recvs) && Errors(script.recvs) == 0
  }

  /** What STOR promises: the old content cut or zero-padded to the offset, then everything received. */
  function Expected(s: Session, path: string, recvs: seq<Received>): seq<byte>
    requires s.offset >= 0
  {
    Resize(Content(s.files, path), s.offset) + Data(recvs)
  }

  /**
   A transfer the client is told is complete leaves the promised content less one byte for each recv error, so it leaves
   the promised content exactly when there was none.
   */
  lemma StorStores(s: Session, cwd: string, arg: string, script: Script)
    requires Stor(s, cwd, arg, script).1 == Done226
    ensures s.offset >= 0 && script.opens && arg != ""
    ensures var path := AbsPath(cwd, arg);
            var files' := Stor(s, cwd, arg, script).0.files;
            var want := Expected(s, path, script.recvs);
            && Errors(script.recvs) <= |want|
            && files' == s.files[path := want[..|want| - Errors(script.recvs)]]
            && (files'[path] == want <==> Errors(script.recvs) == 0)
  {
    hide Resize;
    var f := Content(s.files, AbsPath(cwd, arg));
    var l := Receive(f, s.offset, s.offset, script.recvs);
    ReceiveLaw(f, s.offset, s.offset, script.recvs);
    var want := Expected(s, AbsPath(cwd, arg), script.recvs);
    ResizeTwice(l.file, |want|, l.off);
    CutIs(want, l.off);
  }

  /** One byte arrives and then recv fails once: the transfer is reported complete and the file is empty. */
  lemma RecvErrorLosesAByte(cwd: string, b: byte)
    ensures var script := Script(true, true, true, [Chunk([b], 1), RecvError], true, true);
            var r := Stor(Session(map[], 0), cwd, "f", script);
            r.1 == Done226 && r.0.files == map[AbsPath(cwd, "f") := []]
  {
    hide AbsPath;
    var recvs: seq<Received> := [Chunk([b], 1), RecvError];
    var script := Script(true, true, true, recvs, true, true);
    assert recvs[1..] == [RecvError] && recvs[1..][1..] == [];
    var f1 := WriteAt([], 0, [b]);
    assert [b][..1] == [b];
    assert Receive([], 0, 0, recvs) == Receive(f1, 1, 1, recvs[1..]);
    assert Receive(f1, 1, 1, recvs[1..]) == Receive(f1, 1, 0, []);
    assert Resize(f1, 0) == [];
  }

  /** A transfer whose calls all succeed: the promised content, and the client is told so. */
  lemma StorSucceeds(s: Session, cwd: string, arg: string, script: Script)
    requires arg != "" && s.offset >= 0 && Succeeds(script)
    ensures var path := AbsPath(cwd, arg);
            Stor(s, cwd, arg, script) ==
              (Session(s.files[path := Expected(s, path, script.recvs)], 0), Done226)
  {
    hide Stor, Resize, Whole;
    StorDoneIff(s, cwd, arg, script);
    StorClearsOffset(s, cwd, arg, script);
    StorStores(s, cwd, arg, script);
  }

  /**
   APPE without a pending offset appends to an existing file whenever its calls succeed, and refuses a missing one;
   behind a REST it stores at that offset instead.
   */
  lemma AppeAppends(s: Session, cwd: string, arg: string, script: Script)
    requires arg != "" && s.offset >= 0 && Succeeds(script)
    ensures var path := AbsPath(cwd, arg);
            Appe(s, cwd, arg, script) ==
              if s.offset != 0 then (Session(s.files[path := Expected(s, path, script.recvs)], 0), Done226)
              else if path in s.files then
                (Session(s.files[path := s.files[path] + Data(script.recvs)], 0), Done226)
              else (s, Error550)
  {
    hide Stor, Resize, Succeeds;
    var path := AbsPath(cwd, arg);
    if s.offset != 0 {
      StorSucceeds(s, cwd, arg, script);
    } else if path in s.files {
      StorSucceeds(s.(offset := |s.files[path]|), cwd, arg, script);
      ResizeTwice(s.files[path], 0, 0);
    }
  }

  /** Behind the stat, APPE is told complete exactly when the STOR it becomes is. */
  lemma AppeDoneIff(s: Session, cwd: string, arg: string, script: Script)
    ensures var path := AbsPath(cwd, arg);
            var at := if s.offset != 0 then s.offset else |Content(s.files, path)|;
            Appe(s, cwd, arg, script).1 == Done226 <==>
              && arg != "" && (s.offset == 0 ==> path in s.files) && script.opens && at >= 0 && script.greets
              && script.connects && Whole(script.recvs) && at + |Data(script.recvs)| - Errors(script.recvs) >= 0
              && script.truncates && script.closes
  {
    hide Stor, Whole;
    var path := AbsPath(cwd, arg);
    StorDoneIff(s, cwd, arg, script);
    StorDoneIff(s.(offset := |Content(s.files, path)|), cwd, arg, script);
  }

  // ------------------------------------------------------------- resuming

  function Decimal(n: nat): (s: string)
    ensures s != "" && forall i :: 0 <= i < |s| ==> IsDigit(s[i])
  {
    (if n < 10 then "" else Decimal(n / 10)) + [('0' as int + n % 10) as char]
  }

  lemma {:induction false} DigitsAppend(a: string, c: char, m: nat)
    requires IsDigit(c) && forall i :: 0 <= i < |a| ==> IsDigit(a[i])
    ensures Digits(a + [c], m) == 10 * Digits(a, m) + (c as int - '0' as int)
    decreases |a|
  {
    if a == "" {
      assert [c][1..] == "" && "" + [c] == [c];
    } else {
      assert (a + [c])[1..] == a[1..] + [c];
      DigitsAppend(a[1..], c, 10 * m + (a[0] as int - '0' as int));
    }
  }

  lemma {:induction false} DigitsOfDecimal(n: nat)
    ensures Digits(Decimal(n), 0) == n
  {
    var c := ('0' as int + n % 10) as char;
    if n < 10 {
      DigitsAppend("", c, 0);
    } else {
      DigitsOfDecimal(n / 10);
      DigitsAppend(Decimal(n / 10), c, 0);
    }
  }

  /** REST takes any offset of a 64-bit file. */
  lemma RestTakesDecimal(s: Session, n: nat)
    requires n < 0x8000_0000_0000_0000
    ensures Rest(s, Decimal(n)) == (s.(offset := n), Ok350)
  {
    hide Decimal;
    DigitsOfDecimal(n);
    assert IsDigit(Decimal(n)[0]);
  }

  lemma {:induction false} BlanksSkipped(blanks: string, s: string)
    requires forall i :: 0 <= i < |blanks| ==> IsSpace(blanks[i])
    ensures Atol(blanks + s) == Atol(s)
  {
    if blanks == "" {
      assert blanks + s == s;
    } else {
      assert (blanks + s)[1..] == blanks[1..] + s;
      BlanksSkipped(blanks[1..], s);
    }
  }

  lemma {:induction false} DigitsStop(a: string, b: string, m: nat)
    requires (forall i :: 0 <= i < |a| ==> IsDigit(a[i])) && (b != "" ==> !IsDigit(b[0]))
    ensures Digits(a + b, m) == Digits(a, m)
    decreases |a|
  {
    if a == "" {
      assert a + b == b;
    } else {
      assert (a + b)[1..] == a[1..] + b;
      DigitsStop(a[1..], b, 10 * m + (a[0] as int - '0' as int));
    }
  }

  /** REST with any text that starts with a number: blanks, a sign, digits; the value stops at the limits of a long. */
  lemma RestTakesNumber(s: Session, blanks: string, sign: string, n: nat, tail: string)
    requires (forall i :: 0 <= i < |blanks| ==> IsSpace(blanks[i])) && (tail != "" ==> !IsDigit(tail[0]))
    requires sign == "" || sign == "+" || sign == "-"
    ensures var v: int := if sign == "-" then 0 - n else n;
            var kept := if v > 0x7fff_ffff_ffff_ffff then 0x7fff_ffff_ffff_ffff
                else if v < -0x8000_0000_0000_0000 then -0x8000_0000_0000_0000 else v;
            Rest(s, blanks + (sign + (Decimal(n) + tail))) == (s.(offset := kept), Ok350)
  {
    hide Decimal, Digits;
    var number := Decimal(n) + tail;
    DigitsOfDecimal(n);
    DigitsStop(Decimal(n), tail, 0);
    BlanksSkipped(blanks, sign + number);
    assert number[0] == Decimal(n)[0] && IsDigit(Decimal(n)[0]);
    if sign == "" {
      assert sign + number == number;
    } else {
      assert (sign + number)[1..] == number;
    }
  }

  /** A text without a number behind its blanks and sign is 0; without an argument the offset stays. */
  lemma RestWithoutNumber(s: Session, blanks: string, sign: string, tail: string)
    requires (forall i :: 0 <= i < |blanks| ==> IsSpace(blanks[i])) && (tail != "" ==> !IsDigit(tail[0]))
    requires sign == "+" || sign == "-" || (sign == "" && (tail != "" ==> !IsSpace(tail[0]) && tail[0] !in "+-"))
    ensures var arg := blanks + (sign + tail);
            Rest(s, arg) == if arg == "" then (s, Usage501) else (s.(offset := 0), Ok350)
  {
    BlanksSkipped(blanks, sign + tail);
    assert sign != "" ==> (sign + tail)[1..] == tail;
    assert sign == "" ==> sign + tail == tail;
  }

  /** After a STOR from the start, complete or broken off, the file begins with what was stored. */
  lemma StoredSurvives(s: Session, cwd: string, arg: string, script: Script)
    requires s.offset == 0 && arg != "" && script.opens && script.greets && script.connects && Errors(script.recvs) == 0
    ensures Resize(Content(Stor(s, cwd, arg, script).0.files, AbsPath(cwd, arg)), |Stored(script.recvs)|)
            == Stored(script.recvs)
  {
    hide Resize;
    var f := Content(s.files, AbsPath(cwd, arg));
    var l := Receive(f, 0, 0, script.recvs);
    ReceiveLaw(f, 0, 0, script.recvs);
    NothingBefore(f, Stored(script.recvs));
    if !l.failed {
      ResizeTwice(l.file, |Stored(script.recvs)|, |Stored(script.recvs)|);
    }
  }

  lemma SameWithout(a: map<string, seq<byte>>, b: map<string, seq<byte>>, path: string, f: seq<byte>)
    requires a - {path} == b - {path}
    ensures a[path := f] == b[path := f]
  {
    forall p | p != path ensures (p in a <==> p in b) && (p in a ==> a[p] == b[p]) {
      assert p in a - {path} <==> p in b - {path};
      assert p in a ==> (a - {path})[p] == (b - {path})[p];
    }
  }

  lemma NothingBefore(f: seq<byte>, data: seq<byte>)
    ensures Resize(f, 0) + data == data
  {
  }

  /**
   STOR, then REST with any n up to what was stored, then STOR of the remainder: the file is the first n bytes of the
   first transfer, which may have broken off anywhere, followed by the second one, however both were cut into chunks.
   */
  lemma ResumedUpload(s: Session, cwd: string, arg: string, first: Script, n: nat, second: Script)
    requires s.offset == 0 && arg != "" && first.opens && first.greets && first.connects
    requires Errors(first.recvs) == 0 && Succeeds(second)
    requires n <= |Stored(first.recvs)| && n < 0x8000_0000_0000_0000
    ensures var s1 := Stor(s, cwd, arg, first).0;
            var s2 := Rest(s1, Decimal(n)).0;
            var (s3, reply) := Stor(s2, cwd, arg, second);
            && reply == Done226
            && s3.files == s.files[AbsPath(cwd, arg) := Stored(first.recvs)[..n] + Data(second.recvs)]
  {
    hide Stor, Resize, Receive, Decimal, Atol, Succeeds;
    var path := AbsPath(cwd, arg);
    var s1 := Stor(s, cwd, arg, first).0;
    StorClearsOffset(s, cwd, arg, first);
    RestTakesDecimal(s1, n);
    var s2 := s1.(offset := n);
    StoredSurvives(s, cwd, arg, first);
    StorSucceeds(s2, cwd, arg, second);
    var stored := Stored(first.recvs);
    ResizeTwice(Content(s1.files, path), |stored|, n);
    CutIs(stored, n);
    SameWithout(s1.files, s.files, path, stored[..n] + Data(second.recvs));
  }

  // ------------------------------------------------------------------- RETR

  const PAGE_SIZE: nat := 0x4000

  /** What happens to the page at a position: it is sent, read fails, or write sends only k bytes or fails. */
  datatype Page = Sent(size: nat) | ReadFails | WriteFails(k: nat)

  datatype Download = Download(found: bool, opens: bool, greets: bool, connects: bool, page: nat -> Page, closes: bool)

  function Min(a: nat, b: nat): nat {
    if a < b then a else b
  }

  /** The loop from a position on: what the client gets and whether the end was reached. */
  function SendFrom(f: seq<byte>, pos: nat, page: nat -> Page): (seq<byte>, bool)
    decreases |f| - pos
  {
    if pos >= |f| then ([], true)
    else match page(pos)
      case ReadFails => ([], false)
      case WriteFails(k) => (f[pos..Min(pos + k, |f|)], false)
      case Sent(size) =>
        var len := Min(Min(size + 1, PAGE_SIZE), |f| - pos);
        var (rest, whole) := SendFrom(f, pos + len, page);
        (f[pos..pos + len] + rest, whole)
  }

  /** The pending offset is neither used nor cleared. */
  function Retr(s: Session, cwd: string, arg: string, d: Download): (seq<byte>, Reply) {
    var path := AbsPath(cwd, arg);
    if arg == "" then ([], Usage501)
    else if path !in s.files || !d.found || !d.opens then ([], Error550)
    else if !d.greets then ([], Dropped)
    else if !d.connects then ([], Error550)
    else
      var (sent, whole) := SendFrom(s.files[path], 0, d.page);
      (sent, if whole && d.closes then Done226 else Error550)
  }

  /** The positions of the pages that were sent: each page starts where the one before ends. */
  ghost predicate Pages(f: seq<byte>, page: nat -> Page, at: seq<nat>) {
    && at != [] && at[0] == 0
    && forall i :: 0 <= i < |at| - 1 ==> PageSent(f, page, at[i], at[i + 1])
  }

  /** A page of at most 16 KiB from pos to `next`, or to the end of the file, was sent whole. */
  predicate PageSent(f: seq<byte>, page: nat -> Page, pos: nat, next: nat) {
    && pos < |f| && page(pos).Sent?
    && next == Min(pos + Min(page(pos).size + 1, 0x4000), |f|)
  }

  function Last(at: seq<nat>): nat
    requires at != []
  {
    at[|at| - 1]
  }

  lemma {:induction false} SendPages(f: seq<byte>, page: nat -> Page, at: seq<nat>, i: nat)
    requires Pages(f, page, at) && i < |at|
    ensures at[i] <= Last(at) && (at[i] <= |f| ==> Last(at) <= |f|)
    ensures var (rest, whole) := SendFrom(f, Last(at), page);
            at[i] <= |f| ==> SendFrom(f, at[i], page) == (f[at[i]..Last(at)] + rest, whole)
    decreases |at| - i
  {
    hide SendFrom;
    if i == |at| - 1 {
      assert at[i] <= |f| ==> f[at[i]..at[i]] + SendFrom(f, at[i], page).0 == SendFrom(f, at[i], page).0;
    } else {
      assert PageSent(f, page, at[i], at[i + 1]);
      SendStep(f, at[i], page);
      SendPages(f, page, at, i + 1);
      assert f[at[i]..at[i + 1]] + (f[at[i + 1]..Last(at)] + SendFrom(f, Last(at), page).0)
          == f[at[i]..Last(at)] + SendFrom(f, Last(at), page).0;
    }
  }

  /** Every download sends pages to the end of the file or up to one that fails. */
  lemma PagesEnd(f: seq<byte>, page: nat -> Page) returns (at: seq<nat>)
    ensures Pages(f, page, at) && (Last(at) == |f| || (Last(at) < |f| && !page(Last(at)).Sent?))
  {
    at := [0];
    while Last(at) < |f| && page(Last(at)).Sent?
      invariant Pages(f, page, at) && Last(at) <= |f|
      decreases |f| - Last(at)
    {
      var pos := Last(at);
      var next := Min(pos + Min(page(pos).size + 1, 0x4000), |f|);
      assert PageSent(f, page, pos, next);
      at := at + [next];
    }
  }

  /** How much the client has got when the pages end. */
  function Reached(f: seq<byte>, page: nat -> Page, at: seq<nat>): nat
    requires at != []
  {
    if Last(at) < |f| && page(Last(at)).WriteFails? then Min(Last(at) + page(Last(at)).k, |f|) else Last(at)
  }

  /** RETR gets as far as the data connection. */
  predicate Offers(s: Session, cwd: string, arg: string, d: Download) {
    arg != "" && AbsPath(cwd, arg) in s.files && d.found && d.opens && d.greets && d.connects
  }

  /**
   RETR is reported complete if and only if the file is there, every step succeeds and its pages reach the end; it has
   then sent the file. Otherwise the client has got the pages before the one that failed, and what was written of it.
   */
  lemma RetrDoneIff(s: Session, cwd: string, arg: string, d: Download)
    ensures var (sent, reply) := Retr(s, cwd, arg, d);
            var f := Content(s.files, AbsPath(cwd, arg));
            && (reply == Done226 <==>
                  Offers(s, cwd, arg, d) && d.closes && exists at :: Pages(f, d.page, at) && Last(at) == |f|)
            && (reply == Done226 ==> sent == f)
            && (!Offers(s, cwd, arg, d) ==> sent == [])
            && (Offers(s, cwd, arg, d) ==>
                  forall at :: Pages(f, d.page, at) && Last(at) < |f| && !d.page(Last(at)).Sent? ==>
                    reply == Error550
                    && sent == f[..Reached(f, d.page, at)])
            && (reply == Usage501 <==> arg == "")
  {
    hide SendFrom, PageSent;
    var f := Content(s.files, AbsPath(cwd, arg));
    if Offers(s, cwd, arg, d) {
      var at := PagesEnd(f, d.page);
      SentUpTo(f, d.page, at);
      forall at | Pages(f, d.page, at) && (Last(at) == |f| || (Last(at) < |f| && !d.page(Last(at)).Sent?))
        ensures SendFrom(f, 0, d.page) == (f[..Reached(f, d.page, at)], Last(at) == |f|)
      {
        SentUpTo(f, d.page, at);
      }
    }
  }

  lemma SentUpTo(f: seq<byte>, page: nat -> Page, at: seq<nat>)
    requires Pages(f, page, at) && (Last(at) == |f| || (Last(at) < |f| && !page(Last(at)).Sent?))
    ensures Reached(f, page, at) <= |f|
    ensures SendFrom(f, 0, page) == (f[..Reached(f, page, at)], Last(at) == |f|)
  {
    hide SendFrom;
    SendPages(f, page, at, 0);
    SendStep(f, Last(at), page);
    assert f[0..Last(at)] + [] == f[..Last(at)];
    if Last(at) < |f| && page(Last(at)).WriteFails? {
      assert f[0..Last(at)] + f[Last(at)..Reached(f, page, at)] == f[..Reached(f, page, at)];
    }
  }

  /**
   A completed RETR sends the whole file even behind a REST, against section 5 of RFC 3659, and the offset is still
   pending: a STOR that follows writes its data there.
   */
  lemma RestIsForUploadsOnly(s: Session, n: nat, cwd: string, get: string, d: Download, put: string, script: Script)
    requires n < 0x8000_0000_0000_0000 && put != "" && Succeeds(script)
    ensures var s1 := Rest(s, Decimal(n)).0;
            var (sent, reply) := Retr(s1, cwd, get, d);
            var (s2, reply') := Stor(s1, cwd, put, script);
            && (reply == Done226 ==> AbsPath(cwd, get) in s.files && sent == s.files[AbsPath(cwd, get)])
            && reply' == Done226
            && s2.files == s.files[AbsPath(cwd, put) :=
                  Resize(Content(s.files, AbsPath(cwd, put)), n) + Data(script.recvs)]
  {
    hide Stor, Resize, Receive, Decimal, Atol, Succeeds, Retr;
    RestTakesDecimal(s, n);
    var s1 := s.(offset := n);
    RetrDoneIff(s1, cwd, get, d);
    StorSucceeds(s1, cwd, put, script);
  }

  /** So a completed RETR behind REST n sends what section 5 of RFC 3659 asks for exactly when n is 0. */
  lemma RestHonoured(s: Session, n: nat, cwd: string, arg: string, d: Download)
    requires n < 0x8000_0000_0000_0000 && AbsPath(cwd, arg) in s.files && n <= |s.files[AbsPath(cwd, arg)]|
    requires Retr(Rest(s, Decimal(n)).0, cwd, arg, d).1 == Done226
    ensures Retr(Rest(s, Decimal(n)).0, cwd, arg, d).0 == s.files[AbsPath(cwd, arg)][n..] <==> n == 0
  {
    hide Decimal, Atol, AbsPath, Retr;
    RestTakesDecimal(s, n);
    RetrDoneIff(s.(offset := n), cwd, arg, d);
    var f := s.files[AbsPath(cwd, arg)];
    assert f[0..] == f;
  }

  /** A name without a slash in front means the one below the working directory, whatever the command. */
  lemma RelativeIsAbsolute(s: Session, cwd: string, other: string, arg: string, script: Script, d: Download)
    requires cwd != "" && cwd[0] == '/' && arg != "" && arg[0] != '/'
    ensures var name := cwd + "/" + arg;
            && Stor(s, cwd, arg, script) == Stor(s, other, name, script)
            && Appe(s, cwd, arg, script) == Appe(s, other, name, script)
            && Retr(s, cwd, arg, d) == Retr(s, other, name, d)
  {
    hide Receive, Resize, SendFrom;
    assert AbsPath(cwd, arg) == AbsPath(other, cwd + "/" + arg) == cwd + "/" + arg;
  }

  // ------------------------------------------------------------ the commands

  /** ftp_env_t and the files it works on. */
  class FtpEnv {
    var data_offset: int
    var files: map<string, seq<byte>>
    const cwd: string

    constructor (cwd: string, files: map<string, seq<byte>>)
      ensures Value() == Session(files, 0) && this.cwd == cwd
    {
      data_offset, this.files, this.cwd := 0, files, cwd;
    }

    ghost function Value(): Session
      reads this
    {
      Session(files, data_offset)
    }

    method REST(arg: string) returns (reply: Reply)
      modifies this`data_offset
      ensures (Value(), reply) == Rest(old(Value()), arg)
    {
      if arg == "" {
        return Usage501;
      }
      data_offset := Atol(arg);
      reply := Ok350;
    }

    method STOR(arg: string, script: Script) returns (reply: Reply)
      modifies this
      ensures (Value(), reply) == Stor(old(Value()), cwd, arg, script)
    {
      hide Resize, WriteAt, Receive;
      var off, start := data_offset, data_offset;
      data_offset := 0;
      if arg == "" {
        return Usage501;
      }
      var path := AbsPath(cwd, arg);
      if !script.opens {
        return Error550;
      }
      ghost var f := Content(files, path);
      files := files[path := Content(files, path)];
      if off < 0 {
        return Error550;
      }
      if !script.greets {
        return Dropped;
      }
      if !script.connects {
        return Error550;
      }
      var pos: nat, i := off, 0;
      assert script.recvs[0..] == script.recvs;
      while i < |script.recvs|
        invariant 0 <= i <= |script.recvs| && data_offset == 0
        invariant path in files && files == old(files)[path := files[path]]
        invariant Receive(f, start, start, script.recvs) == Receive(files[path], pos, off, script.recvs[i..])
      {
        var recv := script.recvs[i];
        ReceiveStep(files[path], pos, off, script.recvs[i..]);
        assert script.recvs[i..][1..] == script.recvs[i + 1..];
        i := i + 1;
        if recv.RecvError? {
          off := off - 1;
          continue;
        }
        files := files[path := WriteAt(files[path], pos, recv.data[..recv.stored])];
        assert files == old(files)[path := files[path]];
        if recv.stored != |recv.data| {
          return Error550;
        }
        pos, off := pos + recv.stored, off + |recv.data|;
        assert recv.data[..recv.stored] == recv.data;
      }
      ReceiveStep(files[path], pos, off, script.recvs[i..]);
      if off < 0 || !script.truncates {
        return Error550;
      }
      files := files[path := Resize(files[path], off)];
      assert files == old(files)[path := files[path]];
      reply := if script.closes then Done226 else Error550;
    }

    method APPE(arg: string, script: Script) returns (reply: Reply)
      modifies this
      ensures (Value(), reply) == Appe(old(Value()), cwd, arg, script)
    {
      hide Stor;
      if arg == "" {
        return Usage501;
      }
      if data_offset == 0 {
        var path := AbsPath(cwd, arg);
        if path !in files {
          return Error550;
        }
        data_offset := |files[path]|;
      }
      reply := STOR(arg, script);
    }

    method RETR(arg: string, d: Download) returns (sent: seq<byte>, reply: Reply)
      ensures (sent, reply) == Retr(Value(), cwd, arg, d)
    {
      hide SendFrom;
      sent := [];
      if arg == "" {
        return [], Usage501;
      }
      var path := AbsPath(cwd, arg);
      if path !in files || !d.found || !d.opens {
        return [], Error550;
      }
      if !d.greets {
        return [], Dropped;
      }
      if !d.connects {
        return [], Error550;
      }
      var f, pos := files[path], 0;
      assert [] + SendFrom(f, 0, d.page).0 == SendFrom(f, 0, d.page).0;
      while pos < |f|
        invariant 0 <= pos <= |f|
        invariant SendFrom(f, 0, d.page) == (sent + SendFrom(f, pos, d.page).0, SendFrom(f, pos, d.page).1)
      {
        SendStep(f, pos, d.page);
        var page := d.page(pos);
        if page.ReadFails? {
          assert sent + [] == sent;
          return sent, Error550;
        }
        if page.WriteFails? {
          sent := sent + f[pos..Min(pos + page.k, |f|)];
          return sent, Error550;
        }
        var len := Min(Min(page.size + 1, PAGE_SIZE), |f| - pos);
        ghost var rest := SendFrom(f, pos + len, d.page).0;
        assert sent + (f[pos..pos + len] + rest) == (sent + f[pos..pos + len]) + rest;
        sent, pos := sent + f[pos..pos + len], pos + len;
      }
      SendStep(f, pos, d.page);
      assert sent + [] == sent;
      reply := if d.closes then Done226 else Error550;
    }
  }

  lemma ReceiveStep(f: seq<byte>, pos: nat, off: int, recvs: seq<Received>)
    ensures recvs == [] ==> Receive(f, pos, off, recvs) == Loop(f, off, false)
    ensures recvs != [] && recvs[0].RecvError? ==> Receive(f, pos, off, recvs) == Receive(f, pos, off - 1, recvs[1..])
    ensures recvs != [] && recvs[0].Chunk? ==>
              var f1 := WriteAt(f, pos, recvs[0].data[..recvs[0].stored]);
              Receive(f, pos, off, recvs) ==
                if recvs[0].stored < |recvs[0].data| then Loop(f1, off, true)
                else Receive(f1, pos + |recvs[0].data|, off + |recvs[0].data|, recvs[1..])
  {
    hide WriteAt;
  }

  lemma SendStep(f: seq<byte>, pos: nat, page: nat -> Page)
    ensures pos >= |f| ==> SendFrom(f, pos, page) == ([], true)
    ensures pos < |f| && page(pos).ReadFails? ==> SendFrom(f, pos, page) == ([], false)
    ensures pos < |f| && page(pos).WriteFails?
            ==> SendFrom(f, pos, page) == (f[pos..Min(pos + page(pos).k, |f|)], false)
    ensures pos < |f| && page(pos).Sent? ==>
              var len := Min(Min(page(pos).size + 1, PAGE_SIZE), |f| - pos);
              SendFrom(f, pos, page)
                == (f[pos..pos + len] + SendFrom(f, pos + len, page).0, SendFrom(f, pos + len, page).1)
  {
  }
}
