// extract_name comparing, skip_name, and the CRC of the question section.
module DnsCompare {
  import opened Optional
  import opened HostNames
  import opened Slices
  import opened DnsName

  // ---------- extract_name, comparing ----------

  // The rest of the name from cp on is the labels, as far as the C loop can tell: the
  // dot after a label is looked for only where the name goes on.
  predicate Matches(name: string, cp: nat, labels: seq<string>)
    requires cp <= |name|
    decreases |labels|
  {
    if labels == [] then cp == |name|
    else
      var e := cp + |labels[0]|;
      e <= |name| && Fold(name[cp..e]) == Fold(labels[0])
      && if e == |name| then Matches(name, e, labels[1..]) else name[e] == '.' && Matches(name, e + 1, labels[1..])
  }

  // One label: how far the name is used up, and whether it was the same.
  method CompareLabel(buf: seq<Byte>, p: nat, l: nat, name: string, cp0: nat) returns (cp: nat, same: bool)
    requires p + l <= |buf| && cp0 <= |name|
    ensures cp0 <= cp <= |name| && cp <= cp0 + l
    ensures same <==> cp0 + l <= |name| && Fold(name[cp0..cp0 + l]) == Fold(Text(buf, p, l))
    ensures same ==> cp == cp0 + l
  {
    cp, same := cp0, true;
    var j := 0;
    while j < l
      invariant 0 <= j <= l && cp0 <= cp <= |name| && cp <= cp0 + j
      invariant same ==> cp == cp0 + j && Fold(name[cp0..cp]) == Fold(Text(buf, p, j))
      invariant !same ==> !(cp0 + l <= |name| && Fold(name[cp0..cp0 + l]) == Fold(Text(buf, p, l)))
    {
      if cp == |name| {
        same := false;
      } else {
        if Lower(name[cp]) != Lower(buf[p + j] as char) {
          if same && cp0 + l <= |name| {
            assert Fold(name[cp0..cp0 + l])[j] != Fold(Text(buf, p, l))[j];
          }
          same := false;
        }
        cp := cp + 1;
      }
      if same {
        FoldNext(name, cp0, buf, p, j);
      }
      j := j + 1;
    }
  }

  lemma FoldNext(name: string, cp: nat, buf: seq<Byte>, p: nat, j: nat)
    requires cp + j < |name| && p + j < |buf|
    requires Fold(name[cp..cp + j]) == Fold(Text(buf, p, j)) && Lower(name[cp + j]) == Lower(buf[p + j] as char)
    ensures Fold(name[cp..cp + j + 1]) == Fold(Text(buf, p, j + 1))
  {
    assert Fold(name[cp..cp + j + 1]) == Fold(name[cp..cp + j]) + [Lower(name[cp + j])];
    assert Fold(Text(buf, p, j + 1)) == Fold(Text(buf, p, j)) + [Lower(buf[p + j] as char)];
  }

  datatype Compared = Failed | Compared(same: bool, next: nat)

  // What is certain of the labels read so far and of the ones to come.
  predicate Agrees(whole: Walk, name: string, same: bool, cp: nat, rest: Walk)
    requires cp <= |name|
  {
    whole.Labels? ==> rest.Labels? && (Matches(name, 0, whole.labels) <==> same && Matches(name, cp, rest.labels))
  }

  lemma AgreesLabel(whole: Walk, name: string, same: bool, cp: nat, word: string, rest: Walk, cp': nat, same': bool)
    requires rest.Labels? && cp <= |name| && cp' <= |name|
    requires Agrees(whole, name, same, cp, Labels([word] + rest.labels, rest.next))
    requires same' == (same && cp + |word| <= |name| && Fold(name[cp..cp + |word|]) == Fold(word)
                       && (cp + |word| == |name| || name[cp + |word|] == '.'))
    requires same' ==> cp' == if cp + |word| == |name| then cp + |word| else cp + |word| + 1
    ensures Agrees(whole, name, same', cp', rest)
  {
    assert ([word] + rest.labels)[1..] == rest.labels;
  }

  lemma ResumeLabels(done: seq<string>, back: Option<nat>, w: Walk)
    ensures Resume(done, back, w).Labels? <==> w.Labels?
    ensures w.Labels? ==> Resume(done, back, w) == Labels(done + w.labels, if back.Some? then back.v else w.next)
  {
  }

  // One label: whether reading can go on, and how the comparison stands behind it.
  method CompareOne(buf: seq<Byte>, plen: nat, p: nat, name: string, same0: bool, cp0: nat,
                    ghost hops: nat, ghost whole: Walk, ghost done: seq<string>, ghost back: Option<nat>)
    returns (ok: bool, same: bool, cp: nat)
    requires Fits(buf, plen) && p <= plen && hops <= MAX_HOPS && 0 < buf[p] <= MAXLABEL && cp0 <= |name|
    requires whole == Resume(done, back, ReadFrom(buf, plen, p, hops)) && cp0 <= |Dotted(done)|
    requires Agrees(whole, name, same0, cp0, ReadFrom(buf, plen, p, hops))
    ensures cp <= |name| && (!ok ==> !(whole.Labels? && |Dotted(whole.labels)| < MAXDNAME))
    ensures ok ==>
      var q, d := p + 1 + buf[p], done + [Text(buf, p + 1, buf[p])];
      && q < plen && whole == Resume(d, back, ReadFrom(buf, plen, q, hops)) && cp <= |Dotted(d)|
      && Agrees(whole, name, same, cp, ReadFrom(buf, plen, q, hops))
  {
    hide Dotted, Text, Resume, Matches, Agrees, Fold;
    ok, same, cp := false, same0, cp0;
    var l: nat := buf[p];
    ResumeLabels(done, back, ReadFrom(buf, plen, p, hops));
    ReadLabel(buf, plen, p, hops, done, back);
    if p + 1 + l < plen {
      ghost var rest := ReadFrom(buf, plen, p + 1 + l, hops);
      LongerStays(done + [Text(buf, p + 1, l)], rest, back);
      DottedAppend(done, Text(buf, p + 1, l));
    }
    if cp0 + l + 1 >= MAXDNAME || p + 1 >= plen {
      return;
    }
    var cp1, fits := CompareLabel(buf, p + 1, l, name, cp0);
    var same2 := same0 && fits;
    cp := cp1;
    if cp1 < |name| {
      if name[cp1] != '.' {
        same2 := false;
      }
      cp := cp1 + 1;
    }
    if p + 1 + l >= plen {
      return;
    }
    ghost var rest := ReadFrom(buf, plen, p + 1 + l, hops);
    if rest.Labels? {
      AgreesLabel(whole, name, same0, cp0, Text(buf, p + 1, l), rest, cp, same2);
    } else {
      AgreesBad(whole, name, same2, cp, done + [Text(buf, p + 1, l)], back, rest);
    }
    ok, same := true, same2;
  }

  // Whenever the name could be extracted, comparing succeeds as well, with the same
  // cursor, and says exactly whether the labels match.
  method CompareName(buf: seq<Byte>, plen: nat, start: nat, name: string) returns (r: Compared)
    requires Fits(buf, plen) && start <= plen
    ensures var w := ReadFrom(buf, plen, start, 0);
      && (w.Bad? ==> r.Failed?)
      && (w.Labels? && |Dotted(w.labels)| < MAXDNAME ==> r == Compared(Matches(name, 0, w.labels), w.next))
  {
    hide Dotted, Text, Resume, Matches, Agrees, Fold;
    ghost var whole := ReadFrom(buf, plen, start, 0);
    ghost var done: seq<string> := [];
    NothingYet(whole);
    AgreesStart(whole, name);
    var same, cp: nat := true, 0;
    var p: nat, hops: nat, back: Option<nat> := start, 0, None;
    while buf[p] != 0
      invariant 0 <= p <= plen && 0 <= hops <= MAX_HOPS && cp <= |name|
      invariant whole == Resume(done, back, ReadFrom(buf, plen, p, hops))
      invariant Agrees(whole, name, same, cp, ReadFrom(buf, plen, p, hops))
      invariant cp <= |Dotted(done)|
      decreases MAX_HOPS - hops, |buf| - p
    {
      var l: nat := buf[p];
      ResumeLabels(done, back, ReadFrom(buf, plen, p, hops));
      if l >= 0xc0 {
        if p + 1 >= plen {
          return Failed;
        }
        var target := (l % 64) * 256 + buf[p + 1];
        if target >= plen {
          return Failed;
        }
        ghost var t := if hops + 1 <= MAX_HOPS then ReadFrom(buf, plen, target, hops + 1) else Bad;
        ResumeJump(done, back, ReadFrom(buf, plen, p, hops), p, t);
        AgreesJump(whole, name, same, cp, ReadFrom(buf, plen, p, hops), t);
        if back.None? {
          back := Some(p + 2);
        }
        hops := hops + 1;
        if hops > MAX_HOPS {
          return Failed;
        }
        p := target;
      } else if l > MAXLABEL {
        return Failed;
      } else {
        var ok;
        ok, same, cp := CompareOne(buf, plen, p, name, same, cp, hops, whole, done, back);
        if !ok {
          return Failed;
        }
        done := done + [Text(buf, p + 1, l)];
        p := p + 1 + l;
      }
    }
    ResumeEnd(done, back, p);
    AgreesEnd(whole, name, same, cp, p + 1);
    r := Compared(same && cp == |name|, if back.Some? then back.v else p + 1);
  }

  lemma AgreesStart(whole: Walk, name: string)
    ensures Agrees(whole, name, true, 0, whole)
  {
  }

  lemma AgreesJump(whole: Walk, name: string, same: bool, cp: nat, w: Walk, t: Walk)
    requires cp <= |name| && Agrees(whole, name, same, cp, w)
    requires w.Bad? <==> t.Bad?
    requires w.Labels? ==> t.labels == w.labels
    ensures Agrees(whole, name, same, cp, t)
  {
  }

  lemma AgreesBad(whole: Walk, name: string, same: bool, cp: nat, done: seq<string>, back: Option<nat>, rest: Walk)
    requires cp <= |name| && whole == Resume(done, back, rest) && rest.Bad?
    ensures Agrees(whole, name, same, cp, rest)
  {
  }

  lemma AgreesEnd(whole: Walk, name: string, same: bool, cp: nat, next: nat)
    requires cp <= |name| && Agrees(whole, name, same, cp, Labels([], next))
    ensures whole.Labels? ==> (Matches(name, 0, whole.labels) <==> same && cp == |name|)
  {
  }

  lemma DottedAppend(done: seq<string>, word: string)
    ensures |Dotted(done + [word])| == |Dotted(done)| + |word| + 1
  {
    DottedConcat(done, [word]);
    DottedOne(word);
  }

  // ---------- what a match means ----------

  lemma FoldConcat(a: string, b: string)
    ensures Fold(a + b) == Fold(a) + Fold(b)
  {
  }

  // Splitting an equality of names at the same place.
  lemma FoldSplit(a: string, b: string, c: string, d: string)
    requires |a| == |c|
    ensures Fold(a + b) == Fold(c + d) <==> Fold(a) == Fold(c) && Fold(b) == Fold(d)
  {
    FoldConcat(a, b);
    FoldConcat(c, d);
    assert (Fold(a) + Fold(b))[..|a|] == Fold(a) && (Fold(a) + Fold(b))[|a|..] == Fold(b);
    assert (Fold(c) + Fold(d))[..|a|] == Fold(c) && (Fold(c) + Fold(d))[|a|..] == Fold(d);
  }

  lemma {:induction false} DottedJoin(labels: seq<string>)
    requires labels != []
    ensures Dotted(labels) == Join(labels) + "."
    ensures |labels| > 1 ==> Join(labels) == labels[0] + "." + Join(labels[1..])
    ensures |labels| == 1 ==> Join(labels) == labels[0]
    decreases |labels|
  {
    JoinDotted(labels);
    DottedFirst(labels);
    hide Dotted, Join;
    if |labels| > 1 {
      DottedJoin(labels[1..]);
      DropDot(labels[0] + "." + Join(labels[1..]));
      Regroup(labels[0] + ".", Join(labels[1..]), ".");
    } else {
      JoinNone();
      Regroup(labels[0], ".", "");
      DropDot(labels[0]);
    }
  }

  lemma DottedFirst(labels: seq<string>)
    requires labels != []
    ensures Dotted(labels) == labels[0] + "." + Dotted(labels[1..])
    ensures Dotted(labels) != ""
  {
  }

  lemma DropDot(s: string)
    ensures (s + ".")[..|s + "."| - 1] == s
  {
  }

  predicate NoEmptyLabel(labels: seq<string>) {
    forall i :: 0 <= i < |labels| ==> labels[i] != ""
  }

  // The name, up to case, is the labels, possibly with a final dot.
  predicate Spells(name: string, labels: seq<string>) {
    NameEq(name, Join(labels)) || (labels != [] && NameEq(name, Dotted(labels)))
  }

  lemma SpellsNone(name: string)
    ensures Spells(name, []) <==> name == ""
  {
    JoinNone();
    FoldLength(name, "");
  }

  // Comparing finds exactly the name itself, or the name with a final dot.
  lemma {:induction false} MatchesMeans(name: string, cp: nat, labels: seq<string>)
    requires cp <= |name| && NoEmptyLabel(labels)
    ensures Matches(name, cp, labels) <==> Spells(name[cp..], labels)
    decreases |labels|
  {
    hide Fold, Dotted, Join, Spells;
    if labels == [] {
      SpellsNone(name[cp..]);
    } else {
      var e := cp + |labels[0]|;
      if Spells(name[cp..], labels) {
        SpellsLength(name[cp..], labels);
      }
      if e < |name| {
        MatchesMeans(name, e + 1, labels[1..]);
        SpellsStep(name, cp, labels);
      } else if e == |name| {
        assert name[cp..] == name[cp..e];
        SpellsOne(name[cp..], labels);
        if |labels| > 1 {
          assert labels[1] != "";
        }
      }
    }
  }

  lemma SpellsLength(s: string, labels: seq<string>)
    requires labels != [] && Spells(s, labels)
    ensures |s| >= |labels[0]|
  {
    hide Dotted, Join, Fold;
    DottedJoin(labels);
    FoldLength(s, Join(labels));
    FoldLength(s, Dotted(labels));
  }

  // Nothing after the first label: there must be no other.
  lemma SpellsOne(s: string, labels: seq<string>)
    requires labels != [] && |s| == |labels[0]|
    ensures Spells(s, labels) <==> |labels| == 1 && NameEq(s, labels[0])
  {
    hide Dotted, Join, Fold;
    DottedJoin(labels);
    FoldLength(s, Join(labels));
    FoldLength(s, Dotted(labels));
  }

  lemma JoinNone()
    ensures Join([]) == "" && Dotted([]) == ""
  {
  }

  lemma FoldLength(a: string, b: string)
    ensures Fold(a) == Fold(b) ==> |a| == |b|
    ensures a == "" && b == "" ==> Fold(a) == Fold(b)
  {
  }

  lemma FoldDot(c: char)
    ensures Fold([c]) == Fold(".") <==> c == '.'
  {
    assert Fold([c])[0] == Lower(c) && Fold(".")[0] == '.';
    assert c == '.' ==> [c] == ".";
  }

  // A first label with a dot, and the rest.
  lemma FoldHead(name: string, cp: nat, l: string, rest: string)
    requires cp + |l| < |name|
    ensures var e := cp + |l|;
      NameEq(name[cp..], l + "." + rest) <==>
          Fold(name[cp..e]) == Fold(l) && name[e] == '.' && NameEq(name[e + 1..], rest)
  {
    hide Fold;
    var e := cp + |l|;
    assert name[cp..] == name[cp..e] + ([name[e]] + name[e + 1..]);
    FoldDot(name[e]);
    Regroup(l, ".", rest);
    FoldSplit(name[cp..e], [name[e]] + name[e + 1..], l, "." + rest);
    FoldSplit([name[e]], name[e + 1..], ".", rest);
  }

  lemma SpellsStep(name: string, cp: nat, labels: seq<string>)
    requires labels != [] && cp + |labels[0]| < |name|
    ensures var e := cp + |labels[0]|;
      Spells(name[cp..], labels) <==>
          Fold(name[cp..e]) == Fold(labels[0]) && name[e] == '.' && Spells(name[e + 1..], labels[1..])
  {
    hide Fold, Join, Dotted;
    var e := cp + |labels[0]|;
    DottedJoin(labels);
    DottedFirst(labels);
    FoldHead(name, cp, labels[0], Dotted(labels[1..]));
    if |labels| > 1 {
      FoldHead(name, cp, labels[0], Join(labels[1..]));
    } else {
      JoinNone();
      assert labels[1..] == [];
      FoldLength(name[cp..], labels[0]);
    }
  }

  lemma {:induction false} ReadNonEmpty(buf: seq<Byte>, plen: nat, p: nat, hops: nat)
    requires Fits(buf, plen) && p <= plen && hops <= MAX_HOPS
    ensures var w := ReadFrom(buf, plen, p, hops); w.Labels? ==> NoEmptyLabel(w.labels)
    decreases MAX_HOPS - hops, |buf| - p
  {
    var l: nat := buf[p];
    if l >= 0xc0 {
      if p + 1 < plen && PointerTarget(buf, p) < plen && hops + 1 <= MAX_HOPS {
        ReadNonEmpty(buf, plen, PointerTarget(buf, p), hops + 1);
      }
    } else if 0 < l <= MAXLABEL && p + 1 + l < plen {
      ReadNonEmpty(buf, plen, p + 1 + l, hops);
    }
  }

  predicate FinalDot(name: string) {
    name != "" && name[|name| - 1] == '.'
  }

  lemma OnlyWithFinalDot(name: string, found: string)
    requires NameEq(name, found + ".")
    ensures FinalDot(name)
  {
    hide Fold;
    FoldLength(name, found + ".");
    var n := |name| - 1;
    assert name == name[..n] + [name[n]];
    FoldSplit(name[..n], [name[n]], found, ".");
    FoldDot(name[n]);
  }

  // If the name can be extracted, comparing it with another says whether the two are
  // equal up to case, for every other name that has no final dot.
  lemma CompareIsEquality(buf: seq<Byte>, plen: nat, p: nat, name: string)
    requires Fits(buf, plen) && p <= plen && Extract(buf, plen, p).Some?
    ensures var w := ReadFrom(buf, plen, p, 0);
      var found := Extract(buf, plen, p).v.name;
      && (Matches(name, 0, w.labels) <==> NameEq(name, found) || (w.labels != [] && NameEq(name, found + ".")))
      && (!FinalDot(name) ==> (Matches(name, 0, w.labels) <==> NameEq(name, found)))
  {
    hide Matches, Dotted, Join, Fold, FinalDot, NameEq, Extractable, ReadFrom;
    var w := ReadFrom(buf, plen, p, 0);
    ReadNonEmpty(buf, plen, p, 0);
    MatchesMeans(name, 0, w.labels);
    assert name[0..] == name;
    if w.labels != [] {
      DottedJoin(w.labels);
      if NameEq(name, Join(w.labels) + ".") {
        OnlyWithFinalDot(name, Join(w.labels));
      }
    }
  }

  // Such a name: "a." is taken for the name "a", which it is not for hostname_isequal.
  lemma FinalDotPasses(buf: seq<Byte>, plen: nat, p: nat)
    requires Fits(buf, plen) && p + 2 < plen && buf[p] == 1 && buf[p + 1] == 97 && buf[p + 2] == 0
    ensures var w := ReadFrom(buf, plen, p, 0);
      w == Labels(["a"], p + 3) && Extract(buf, plen, p) == Some(Extracted("a", p + 3))
      && Matches("a.", 0, w.labels) && !NameEq("a.", "a")
  {
    assert Text(buf, p + 1, 1) == "a";
    assert ReadFrom(buf, plen, p + 2, 0) == Labels([], p + 3);
    assert ["a"] + [] == ["a"] && ["a"][1..] == [];
    DottedOne("a");
    assert Join(["a"]) == "a";
    assert "a."[0..1] == "a";
    FoldLength("a.", "a");
  }

  // ---------- skip_name ----------

  // Bit strings are skipped here, although extract_name reads them differently.
  function SkipName(buf: seq<Byte>, plen: nat, p: nat): Option<nat>
    requires Fits(buf, plen)
    decreases |buf| - p
  {
    if p >= plen then None
    else
      var l: nat := buf[p];
      if l >= 0xc0 then Some(p + 2)
      else if l >= 0x80 then None
      else if l >= 0x40 then
        if l % 64 != 1 then None
        else
          var count: nat := buf[p + 1];
          SkipName(buf, plen, p + 2 + if count == 0 then 32 else (count - 1) / 8 + 1)
      else if l == 0 then Some(p + 1)
      else SkipName(buf, plen, p + 1 + l)
  }

  method SkipNameLoop(buf: seq<Byte>, plen: nat, start: nat) returns (r: Option<nat>)
    requires Fits(buf, plen)
    ensures r == SkipName(buf, plen, start)
  {
    var p := start;
    while true
      invariant SkipName(buf, plen, start) == SkipName(buf, plen, p)
      decreases plen - p
    {
      if p >= plen {
        return None;
      }
      var l: nat := buf[p];
      if l >= 0xc0 {
        return Some(p + 2);
      } else if l >= 0x80 {
        return None;
      } else if l >= 0x40 {
        if l % 64 != 1 {
          return None;
        }
        var count: nat := buf[p + 1];
        if count == 0 {
          p := p + 2 + 32;
        } else {
          p := p + 2 + (count - 1) / 8 + 1;
        }
      } else {
        p := p + 1;
        if l == 0 {
          return Some(p);
        }
        p := p + l;
      }
    }
  }

  // A label of n bytes: a length and as many characters, or a bit string (RFC 2673), where a
  // count of 0 stands for 256 bits and the last byte need not be full.
  predicate LabelHas(buf: seq<Byte>, p: nat, n: nat)
    requires p + 1 < |buf|
  {
    var l, bits := buf[p], if buf[p + 1] == 0 then 256 else buf[p + 1] as int;
    || (0 < l < 0x40 && n == 1 + l)
    || (l == 0x41 && n > 2 && 8 * (n - 3) < bits <= 8 * (n - 2))
  }

  // k labels from p on, and then the end of the name at q: a zero, or a pointer.
  ghost predicate Labelled(buf: seq<Byte>, plen: nat, p: nat, q: nat, k: nat)
    requires Fits(buf, plen)
    decreases k
  {
    && p < plen
    && if k == 0 then (buf[p] == 0 && q == p + 1) || (buf[p] >= 0xc0 && q == p + 2)
       else exists n: nat :: LabelHas(buf, p, n) && Labelled(buf, plen, p + n, q, k - 1)
  }

  lemma {:induction false} SkippedIs(buf: seq<Byte>, plen: nat, p: nat, q: nat, k: nat)
    requires Fits(buf, plen) && Labelled(buf, plen, p, q, k)
    ensures SkipName(buf, plen, p) == Some(q)
    decreases k
  {
    if k > 0 {
      var n: nat :| LabelHas(buf, p, n) && Labelled(buf, plen, p + n, q, k - 1);
      SkippedIs(buf, plen, p + n, q, k - 1);
    }
  }

  // skip_name gives the end of the labels from p on, and nothing if they do not end.
  lemma {:induction false} SkipIs(buf: seq<Byte>, plen: nat, p: nat)
    requires Fits(buf, plen)
    ensures SkipName(buf, plen, p).Some? ==> exists k: nat :: Labelled(buf, plen, p, SkipName(buf, plen, p).v, k)
    ensures SkipName(buf, plen, p).None? ==> forall q: nat, k: nat :: !Labelled(buf, plen, p, q, k)
    decreases |buf| - p
  {
    if SkipName(buf, plen, p).None? {
      forall q: nat, k: nat | Labelled(buf, plen, p, q, k)
        ensures false
      {
        SkippedIs(buf, plen, p, q, k);
      }
    } else if buf[p] == 0 || buf[p] >= 0xc0 {
      assert Labelled(buf, plen, p, SkipName(buf, plen, p).v, 0);
    } else {
      var count: nat := buf[p + 1];
      var n: nat := if buf[p] < 0x40 then 1 + buf[p] else 2 + if count == 0 then 32 else (count - 1) / 8 + 1;
      SkipIs(buf, plen, p + n);
      var q := SkipName(buf, plen, p).v;
      var k: nat :| Labelled(buf, plen, p + n, q, k);
      assert LabelHas(buf, p, n) && Labelled(buf, plen, p + n, q, k + 1 - 1);
      assert Labelled(buf, plen, p, q, k + 1);
    }
  }

  // A name that can be read is skipped to where reading it ends; only skip_name refuses to
  // start at the very end of the packet.
  lemma {:induction false} SkipAgrees(buf: seq<Byte>, plen: nat, p: nat, hops: nat)
    requires Fits(buf, plen) && p <= plen && hops <= MAX_HOPS && ReadFrom(buf, plen, p, hops).Labels?
    ensures SkipName(buf, plen, p) == if p == plen then None else Some(ReadFrom(buf, plen, p, hops).next)
    decreases |buf| - p
  {
    var l: nat := buf[p];
    if 0 < l <= MAXLABEL {
      SkipAgrees(buf, plen, p + 1 + l, hops);
    }
  }

  // ---------- chains of pointers ----------

  // k pointers lead from p to q.
  predicate Leads(buf: seq<Byte>, plen: nat, p: nat, q: nat, k: nat)
    requires Fits(buf, plen)
    decreases k
  {
    if k == 0 then p == q <= plen
    else p + 1 < plen && buf[p] >= 0xc0 && PointerTarget(buf, p) < plen
         && Leads(buf, plen, PointerTarget(buf, p), q, k - 1)
  }

  // As many as 255 pointers are followed to the end of a name, and no more.
  lemma {:induction false} HopLimit(buf: seq<Byte>, plen: nat, p: nat, q: nat, k: nat, hops: nat)
    requires Fits(buf, plen) && p <= plen && q <= plen && hops <= 255 && Leads(buf, plen, p, q, k) && buf[q] == 0
    ensures ReadFrom(buf, plen, p, hops).Labels? <==> hops + k <= 255
    decreases k
  {
    if k > 0 && hops < 255 {
      HopLimit(buf, plen, PointerTarget(buf, p), q, k - 1, hops + 1);
    }
  }
}
