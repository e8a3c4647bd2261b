// Names in DNS packets: the readers of rfc1035.c. A packet of plen bytes lies in a
// buffer that goes on for at least another label, as the C buffers do. Labels are
// ordinary ones or end in a compression pointer (section 4.1.4 of RFC 1035).
module DnsName {
  import opened Optional
  import opened HostNames

  type Byte = x: int | 0 <= x < 256

  const MAXDNAME: nat := 1025

  const MAXLABEL: nat := 63

  const MAX_HOPS: nat := 255

  const SLACK: nat := 64

  // ---------- what a name in a packet says ----------

  datatype Walk = Bad | Labels(labels: seq<string>, next: nat)

  function Text(buf: seq<Byte>, from: nat, len: nat): (s: string)
    requires from + len <= |buf|
    ensures |s| == len && forall k :: 0 <= k < len ==> s[k] == buf[from + k] as char
  {
    seq(len, k requires 0 <= k < len => buf[from + k] as char)
  }

  function PointerTarget(buf: seq<Byte>, p: nat): nat
    requires p + 1 < |buf|
  {
    var high: nat := buf[p];
    (high % 64) * 256 + buf[p + 1]
  }

  predicate Fits(buf: seq<Byte>, plen: nat) {
    plen + SLACK <= |buf|
  }

  // The labels from p on, and where the name ends; a pointer ends it where it stands.
  function ReadFrom(buf: seq<Byte>, plen: nat, p: nat, hops: nat): (w: Walk)
    requires Fits(buf, plen) && p <= plen && hops <= MAX_HOPS
    decreases MAX_HOPS - hops, |buf| - p
  {
    var l := buf[p];
    if l == 0 then Labels([], p + 1)
    else if l >= 0xc0 then
      if p + 1 >= plen || PointerTarget(buf, p) >= plen || hops + 1 > MAX_HOPS then Bad
      else
        var w := ReadFrom(buf, plen, PointerTarget(buf, p), hops + 1);
        if w.Bad? then Bad else Labels(w.labels, p + 2)
    else if l > MAXLABEL || p + 1 + l >= plen then Bad
    else
      var w := ReadFrom(buf, plen, p + 1 + l, hops);
      if w.Bad? then Bad else Labels([Text(buf, p + 1, l)] + w.labels, w.next)
  }

  predicate Legal(s: string) {
    forall k :: 0 <= k < |s| ==> LegalChar(s[k])
  }

  predicate AllLegal(labels: seq<string>) {
    forall i :: 0 <= i < |labels| ==> Legal(labels[i])
  }

  // Each label with a dot after it.
  function Dotted(labels: seq<string>): string {
    if labels == [] then "" else labels[0] + "." + Dotted(labels[1..])
  }

  // The name without its final dot.
  function Join(labels: seq<string>): string
  {
    if labels == [] then "" else Dotted(labels)[..|Dotted(labels)| - 1]
  }

  // A name that can be extracted: not too long, and of legal characters.
  predicate Extractable(labels: seq<string>) {
    |Dotted(labels)| < MAXDNAME && AllLegal(labels)
  }

  datatype Extracted = Extracted(name: string, next: nat)

  function Extract(buf: seq<Byte>, plen: nat, p: nat): Option<Extracted>
    requires Fits(buf, plen) && p <= plen
  {
    var w := ReadFrom(buf, plen, p, 0);
    if w.Bad? || !Extractable(w.labels) then None else Some(Extracted(Join(w.labels), w.next))
  }

  lemma {:induction false} DottedConcat(a: seq<string>, b: seq<string>)
    ensures Dotted(a + b) == Dotted(a) + Dotted(b)
  {
    if a == [] {
      assert a + b == b;
    } else {
      DottedConcat(a[1..], b);
      assert (a + b)[1..] == a[1..] + b;
    }
  }

  lemma DottedOne(s: string)
    ensures Dotted([s]) == s + "."
  {
    assert Dotted([s][1..]) == "";
  }

  // ---------- extract_name, extracting ----------

  // The walk so far: labels read, and where the first jump left off.
  function Resume(done: seq<string>, back: Option<nat>, w: Walk): Walk {
    if w.Bad? then Bad else Labels(done + w.labels, if back.Some? then back.v else w.next)
  }

  lemma AppendLabel(done: seq<string>, word: string, w: Walk, back: Option<nat>)
    requires w.Labels?
    ensures Resume(done, back, Labels([word] + w.labels, w.next)) == Resume(done + [word], back, w)
  {
    assert done + ([word] + w.labels) == (done + [word]) + w.labels;
  }

  // One more ordinary label.
  lemma ReadLabel(buf: seq<Byte>, plen: nat, p: nat, hops: nat, done: seq<string>, back: Option<nat>)
    requires Fits(buf, plen) && p <= plen && hops <= MAX_HOPS && 0 < buf[p] <= MAXLABEL
    ensures p + 1 + buf[p] >= plen ==> ReadFrom(buf, plen, p, hops).Bad?
    ensures p + 1 + buf[p] < plen ==>
      Resume(done, back, ReadFrom(buf, plen, p, hops))
      == Resume(done + [Text(buf, p + 1, buf[p])], back, ReadFrom(buf, plen, p + 1 + buf[p], hops))
  {
    if p + 1 + buf[p] < plen {
      var w := ReadFrom(buf, plen, p + 1 + buf[p], hops);
      if w.Labels? {
        AppendLabel(done, Text(buf, p + 1, buf[p]), w, back);
      }
    }
  }

  lemma LongerStays(done: seq<string>, w: Walk, back: Option<nat>)
    ensures var r := Resume(done, back, w); r.Labels? ==>
        |Dotted(r.labels)| >= |Dotted(done)| && (AllLegal(r.labels) ==> AllLegal(done))
  {
    if w.Labels? {
      DottedConcat(done, w.labels);
      assert forall i :: 0 <= i < |done| ==> (done + w.labels)[i] == done[i];
    }
  }

  method CopyLabel(buf: seq<Byte>, p: nat, l: nat) returns (word: string, ok: bool)
    requires p + l <= |buf|
    ensures ok <==> Legal(Text(buf, p, l))
    ensures ok ==> word == Text(buf, p, l)
  {
    word := "";
    var j := 0;
    while j < l
      invariant 0 <= j <= l
      invariant word == Text(buf, p, l)[..j] && Legal(word)
    {
      var c := buf[p + j] as char;
      if !LegalChar(c) {
        assert Text(buf, p, l)[j] == c;
        return word, false;
      }
      word := word + [c];
      j := j + 1;
    }
    ok := true;
  }

  lemma LegalAppend(done: seq<string>, word: string)
    ensures AllLegal(done + [word]) <==> AllLegal(done) && Legal(word)
    ensures Dotted(done + [word]) == Dotted(done) + word + "."
  {
    hide Legal;
    DottedConcat(done, [word]);
    DottedOne(word);
    if AllLegal(done + [word]) {
      assert (done + [word])[|done|] == word;
      forall i | 0 <= i < |done|
        ensures Legal(done[i])
      {
        assert (done + [word])[i] == done[i];
      }
    }
  }

  // The loop always ends: pointers are counted, and between two of them the cursor
  // moves on.
  method ExtractName(buf: seq<Byte>, plen: nat, start: nat) returns (r: Option<Extracted>)
    requires Fits(buf, plen) && start <= plen
    ensures r == Extract(buf, plen, start)
  {
    hide Dotted, Legal, AllLegal, Text, Resume;
    ghost var whole := ReadFrom(buf, plen, start, 0);
    ghost var done: seq<string> := [];
    NothingYet(whole);
    var name := "";
    var p: nat, hops: nat, back: Option<nat> := start, 0, None;
    while buf[p] != 0
      invariant 0 <= p <= plen && 0 <= hops <= MAX_HOPS
      invariant whole == Resume(done, back, ReadFrom(buf, plen, p, hops))
      invariant name == Dotted(done) && |name| < MAXDNAME && AllLegal(done)
      decreases MAX_HOPS - hops, |buf| - p
    {
      var l: nat := buf[p];
      if l >= 0xc0 {
        if p + 1 >= plen {
          ResumeBad(done, back);
          return None;
        }
        var target := (l % 64) * 256 + buf[p + 1];
        if target >= plen {
          ResumeBad(done, back);
          return None;
        }
        ResumeJump(done, back, ReadFrom(buf, plen, p, hops), p, if hops + 1 <= MAX_HOPS then
            ReadFrom(buf, plen, target, hops + 1) else Bad);
        if back.None? {
          back := Some(p + 2);
        }
        hops := hops + 1;
        if hops > MAX_HOPS {
          ResumeBad(done, back);
          return None;
        }
        p := target;
      } else if l > MAXLABEL {
        ResumeBad(done, back);
        return None;
      } else {
        var word, legal := CopyLabel(buf, p + 1, l);
        ReadLabel(buf, plen, p, hops, done, back);
        LegalAppend(done, Text(buf, p + 1, l));
        if p + 1 + l < plen {
          LongerStays(done + [Text(buf, p + 1, l)], ReadFrom(buf, plen, p + 1 + l, hops), back);
        }
        if |name| + l + 1 >= MAXDNAME || p + 1 >= plen || !legal {
          ResumeBad(done, back);
          return None;
        }
        name := name + word + ".";
        if p + 1 + l >= plen {
          ResumeBad(done, back);
          return None;
        }
        done := done + [word];
        p := p + 1 + l;
      }
    }
    ResumeEnd(done, back, p);
    JoinDotted(done);
    r := Some(Extracted(if name == "" then "" else name[..|name| - 1], if back.Some? then back.v else p + 1));
  }

  lemma NothingYet(w: Walk)
    ensures Resume([], None, w) == w && Dotted([]) == "" && AllLegal([])
  {
    if w.Labels? {
      assert [] + w.labels == w.labels;
    }
  }

  lemma ResumeBad(done: seq<string>, back: Option<nat>)
    ensures Resume(done, back, Bad) == Bad
  {
  }

  lemma ResumeEnd(done: seq<string>, back: Option<nat>, p: nat)
    ensures Resume(done, back, Labels([], p + 1)) == Labels(done, if back.Some? then back.v else p + 1)
  {
    assert done + [] == done;
  }

  // A jump keeps the place after the first pointer.
  lemma ResumeJump(done: seq<string>, back: Option<nat>, w: Walk, p: nat, t: Walk)
    requires w == if t.Bad? then Bad else Labels(t.labels, p + 2)
    ensures Resume(done, back, w) == Resume(done, if back.None? then Some(p + 2) else back, t)
  {
  }

  lemma JoinDotted(labels: seq<string>)
    ensures labels == [] <==> Dotted(labels) == ""
    ensures Join(labels) == if Dotted(labels) == "" then "" else Dotted(labels)[..|Dotted(labels)| - 1]
  {
  }
}
