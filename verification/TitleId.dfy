/** extract_title_id of plugin_mono/source/pkg_broswer.c: a title id in a package's file name. */
module TitleId {
  import opened Buffers

  predicate IsUpperOrDigit(c: char) {
    'A' <= c <= 'Z' || '0' <= c <= '9'
  }

  /** The tests the scan makes at one position. The code asks for ten characters of one kind, not four and five. */
  predicate HitAt(s: string, i: nat) {
    && i + 10 <= |s| && (s[i] == 'C' || s[i] == 'P' || s[i] == 'U')
    && (i > 0 ==> !IsUpperOrDigit(s[i - 1]))
    && (forall k :: i <= k < i + 10 ==> IsUpperOrDigit(s[k]))
    && (i + 10 < |s| ==> !IsUpperOrDigit(s[i + 10]))
  }

  /** The scan from a position on. */
  function SearchFrom(s: string, i: nat): string
    requires i <= |s|
    decreases |s| - i
  {
    if i == |s| then "" else if HitAt(s, i) then s[i..i + 10] else SearchFrom(s, i + 1)
  }

  // ---------------------------------------------------------------- the runs

  /** How long the text stays in the class. */
  function RunLength(s: string): (n: nat)
    ensures n <= |s| && (forall k :: 0 <= k < n ==> IsUpperOrDigit(s[k])) && (n < |s| ==> !IsUpperOrDigit(s[n]))
  {
    if s == "" || !IsUpperOrDigit(s[0]) then 0 else 1 + RunLength(s[1..])
  }

  /** The maximal runs of upper-case letters and digits, in order. */
  function Runs(s: string): seq<string>
    decreases |s|
  {
    if s == "" then []
    else if !IsUpperOrDigit(s[0]) then Runs(s[1..])
    else [s[..RunLength(s)]] + Runs(s[RunLength(s)..])
  }

  predicate IsTitleId(run: string) {
    |run| == 10 && (run[0] == 'C' || run[0] == 'P' || run[0] == 'U')
  }

  /** The first run that is a title id, empty if none is. */
  function FirstTitleId(runs: seq<string>): (r: string)
    ensures r == "" || (r in runs && IsTitleId(r))
    ensures r == "" <==> forall run :: run in runs ==> !IsTitleId(run)
  {
    if runs == [] then "" else if IsTitleId(runs[0]) then runs[0] else FirstTitleId(runs[1..])
  }

  /** Position i is not inside a run. */
  predicate Between(s: string, i: nat) {
    i <= |s| && (0 < i < |s| ==> !(IsUpperOrDigit(s[i - 1]) && IsUpperOrDigit(s[i])))
  }

  /** From any position outside the runs, the scan's window tests find the first title id among the runs. */
  lemma {:induction false} SearchIsFirstRun(s: string, i: nat)
    requires Between(s, i)
    ensures SearchFrom(s, i) == FirstTitleId(Runs(s[i..]))
    decreases |s| - i
  {
    hide IsUpperOrDigit, HitAt, RunLength, Runs;
    var rest := s[i..];
    RunsStep(rest);
    if i < |s| {
      if !IsUpperOrDigit(s[i]) {
        NoHit(s, i);
        assert rest[1..] == s[i + 1..];
        SearchIsFirstRun(s, i + 1);
      } else {
        var n := RunLength(rest);
        RunStarts(rest);
        assert rest[n..] == s[i + n..] && rest[..n] == s[i..i + n];
        HitIsTitleId(s, i, n);
        var runs := Runs(rest);
        assert runs[1..] == Runs(rest[n..]);
        if !HitAt(s, i) {
          SkipRun(s, i, i + 1, i + n);
          SearchIsFirstRun(s, i + n);
        }
      }
    }
  }

  lemma RunsStep(s: string)
    ensures s == "" ==> Runs(s) == []
    ensures s != ""
            ==> Runs(s) == if !IsUpperOrDigit(s[0]) then Runs(s[1..]) else [s[..RunLength(s)]] + Runs(s[RunLength(s)..])
  {
    hide IsUpperOrDigit, RunLength;
  }

  lemma RunStarts(s: string)
    requires s != "" && IsUpperOrDigit(s[0])
    ensures RunLength(s) > 0
  {
    hide IsUpperOrDigit;
  }

  lemma NoHit(s: string, i: nat)
    requires i < |s| && !IsUpperOrDigit(s[i])
    ensures !HitAt(s, i)
  {
    hide IsUpperOrDigit;
  }

  /** At the start of a maximal run of n characters the tests ask for a title id. */
  lemma HitIsTitleId(s: string, i: nat, n: nat)
    requires Between(s, i) && n > 0 && i + n <= |s|
    requires forall k :: 0 <= k < n ==> IsUpperOrDigit(s[i..][k])
    requires i + n < |s| ==> !IsUpperOrDigit(s[i..][n])
    ensures HitAt(s, i) <==> IsTitleId(s[i..i + n])
    ensures Between(s, i + n)
    ensures forall k :: i <= k < i + n ==> IsUpperOrDigit(s[k])
  {
    hide IsUpperOrDigit;
    assert forall k :: i <= k < |s| ==> s[k] == s[i..][k - i];
    assert IsUpperOrDigit(s[i..][0]);
    if n > 10 {
      assert IsUpperOrDigit(s[i + 10]);
    } else if n < 10 && i + 10 <= |s| {
      assert !IsUpperOrDigit(s[i + n]);
    }
  }

  /** Inside a run there is no hit. */
  lemma {:induction false} SkipRun(s: string, i: nat, j: nat, end: nat)
    requires i < j <= end <= |s| && forall k :: i <= k < end ==> IsUpperOrDigit(s[k])
    ensures SearchFrom(s, j) == SearchFrom(s, end)
    decreases end - j
  {
    hide IsUpperOrDigit;
    if j < end {
      assert IsUpperOrDigit(s[j - 1]);
      SkipRun(s, i, j + 1, end);
    }
  }

  // ------------------------------------------------------ position by position

  const CLASS: string := "ABCDEFGHIJKLMNOPQRSTUVWXYZ" + "0123456789"

  /** Ten characters of the class stand at i, the first is one of three letters, and none stands next to them. */
  predicate TenAt(s: string, i: nat) {
    && i + 10 <= |s| && s[i] in "CPU" && (forall k :: i <= k < i + 10 ==> s[k] in CLASS)
    && (i > 0 ==> s[i - 1] !in CLASS) && (i + 10 < |s| ==> s[i + 10] !in CLASS)
  }

  lemma ClassIs(c: char)
    ensures c in CLASS <==> IsUpperOrDigit(c)
  {
    Letters(c);
    Digits(c);
    assert CLASS[..26] == "ABCDEFGHIJKLMNOPQRSTUVWXYZ" && CLASS[26..] == "0123456789";
    assert c in CLASS <==> c in CLASS[..26] || c in CLASS[26..];
  }

  lemma Letters(c: char)
    ensures c in "ABCDEFGHIJKLMNOPQRSTUVWXYZ" <==> 'A' <= c <= 'Z'
  {
    assert forall i :: 0 <= i < 26 ==> "ABCDEFGHIJKLMNOPQRSTUVWXYZ"[i] == 'A' + i as char;
    if 'A' <= c <= 'Z' {
      assert "ABCDEFGHIJKLMNOPQRSTUVWXYZ"[(c - 'A') as int] == c;
    }
  }

  lemma Digits(c: char)
    ensures c in "0123456789" <==> '0' <= c <= '9'
  {
    assert forall i :: 0 <= i < 10 ==> "0123456789"[i] == '0' + i as char;
    if '0' <= c <= '9' {
      assert "0123456789"[(c - '0') as int] == c;
    }
  }

  lemma TenIsHit(s: string, i: nat)
    ensures TenAt(s, i) <==> HitAt(s, i)
  {
    hide CLASS, IsUpperOrDigit;
    forall c: char ensures c in CLASS <==> IsUpperOrDigit(c) {
      ClassIs(c);
    }
  }

  lemma SearchStep(s: string, i: nat)
    requires i <= |s|
    ensures SearchFrom(s, i) == if i == |s| then "" else if HitAt(s, i) then s[i..i + 10] else SearchFrom(s, i + 1)
  {
    hide HitAt;
  }

  lemma {:induction false} SearchFinds(s: string, from: nat, i: nat)
    requires from <= i <= |s| && forall j :: from <= j < i ==> !HitAt(s, j)
    requires i < |s| ==> HitAt(s, i)
    ensures SearchFrom(s, from) == if i < |s| then s[i..i + 10] else ""
    decreases i - from
  {
    hide HitAt, SearchFrom;
    SearchStep(s, from);
    if from < i {
      SearchFinds(s, from + 1, i);
    }
  }

  /** The title id of a name: the first ten such characters, nothing without any. */
  lemma TitleIdIs(s: string, i: nat)
    ensures TenAt(s, i) && (forall j :: 0 <= j < i ==> !TenAt(s, j)) ==> FirstTitleId(Runs(s)) == s[i..i + 10]
    ensures (forall j :: 0 <= j < |s| ==> !TenAt(s, j)) ==> FirstTitleId(Runs(s)) == ""
  {
    hide TenAt, HitAt, SearchFrom, FirstTitleId, Runs;
    assert s[0..] == s;
    SearchIsFirstRun(s, 0);
    forall j: nat ensures TenAt(s, j) <==> HitAt(s, j) {
      TenIsHit(s, j);
    }
    if HitAt(s, i) && forall j :: 0 <= j < i ==> !HitAt(s, j) {
      assert i + 10 <= |s| by { HitFits(s, i); }
      SearchFinds(s, 0, i);
    }
    if forall j :: 0 <= j < |s| ==> !HitAt(s, j) {
      SearchFinds(s, 0, |s|);
    }
  }

  lemma HitFits(s: string, i: nat)
    requires HitAt(s, i)
    ensures i + 10 <= |s|
  {
  }

  /** A package named after its title id, which has nine characters, yields none. */
  lemma NineIsNoTitleId(id: string)
    requires |id| == 9 && forall k :: 0 <= k < 9 ==> id[k] in CLASS
    ensures FirstTitleId(Runs(id + ".pkg")) == ""
  {
    hide FirstTitleId, Runs, CLASS;
    var s := id + ".pkg";
    assert '.' !in CLASS by { ClassIs('.'); }
    forall j | 0 <= j < |s| ensures !TenAt(s, j) {
      assert s[9] == '.';
      if j + 10 <= |s| {
        assert j <= 9 < j + 10;
      }
    }
    TitleIdIs(s, 0);
  }

  // -------------------------------------------------------------- the method

  method ExtractTitleId(filename: string, out: array<char>, out_sz: nat)
    requires 0 < out.Length && out_sz <= out.Length
    modifies out
    ensures var r := if out_sz < 2 then "" else Cut(FirstTitleId(Runs(filename)), out_sz);
            out[..] == Over(old(out[..]), 0, r + "\0")
  {
    hide SearchFrom, FirstTitleId, Runs, Over;
    ghost var buffer := out[..];
    Put(out, 0, '\0');
    assert "" + "\0" == "\0";
    if out_sz < 2 {
      return;
    }
    assert filename[0..] == filename;
    SearchIsFirstRun(filename, 0);
    var p := 0;
    while p < |filename|
      invariant p <= |filename| && SearchFrom(filename, p) == SearchFrom(filename, 0)
      invariant out[..] == Over(buffer, 0, "\0")
    {
      SearchStep(filename, p);
      var hit := TestWindow(filename, p);
      if hit {
        var copy := 10;
        if copy >= out_sz {
          copy := out_sz - 1;
        }
        ghost var r := filename[p..p + copy];
        assert Cut(filename[p..p + 10], out_sz) == r;
        Memcpy(out, 0, filename[p..p + copy]);
        Put(out, copy, '\0');
        OverTwice(Over(buffer, 0, "\0"), 0, r, "\0");
        OverAgain(buffer, 0, "\0", r + "\0");
        return;
      }
      p := p + 1;
    }
    SearchStep(filename, p);
  }

  /** The window at one position: the ten characters in a loop, the neighbours after and before it. */
  method TestWindow(s: string, p: nat) returns (ok: bool)
    requires p < |s|
    ensures ok <==> HitAt(s, p)
  {
    hide IsUpperOrDigit;
    ok := true;
    if !((s[p] == 'C' || s[p] == 'P' || s[p] == 'U') && p + 10 <= |s|) {
      return false;
    }
    if p != 0 && IsUpperOrDigit(s[p - 1]) {
      ok := false;
    }
    if ok {
      for i := 0 to 10
        invariant ok && forall k :: p <= k < p + i ==> IsUpperOrDigit(s[k])
      {
        if !IsUpperOrDigit(s[p + i]) {
          ok := false;
          break;
        }
      }
    }
    if ok && p + 10 < |s| && IsUpperOrDigit(s[p + 10]) {
      ok := false;
    }
  }
}
