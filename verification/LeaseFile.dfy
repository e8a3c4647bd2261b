// Saving the lease table and loading it again: lease_update_file and lease_init.
module LeaseFile {
  import opened Optional
  import opened HostNames
  import opened LeaseTable
  import opened LeaseRuns
  import opened LeaseText

  // What a line of the file says of a lease.
  datatype Entry = Entry(addr: nat, hw: Hw, clid: seq<nat>, expires: nat, name: Option<string>)

  function EntryOf(l: Lease): Entry {
    Entry(l.addr, l.hw, l.clid, l.expires, l.hostname)
  }

  predicate NameChar(c: char) {
    LegalChar(c) || c == '.'
  }

  // A host name: not empty, short and of legal characters.
  predicate GoodName(s: string) {
    0 < |s| <= NAME_MAX && forall i :: 0 <= i < |s| ==> NameChar(s[i])
  }

  predicate Saveable(e: Entry) {
    && e.addr < 0x1_0000_0000
    && e.hw.Hw? && 0 <= e.hw.kind < 256 && IsBytes(e.hw.bytes) && |e.hw.bytes| <= LeaseText.CHADDR_MAX
    && IsBytes(e.clid) && |e.clid| <= CLID_MAX
    && (e.name.Some? ==> GoodName(e.name.v))
  }

  // ---------- one line ----------

  // Spaces are written as stars.
  function Starred(s: string): (r: string)
    ensures |r| == |s| && forall i :: 0 <= i < |s| ==> r[i] == if s[i] == ' ' then '*' else s[i]
  {
    seq(|s|, i requires 0 <= i < |s| => if s[i] == ' ' then '*' else s[i])
  }

  function Unstarred(s: string): (r: string)
    ensures |r| == |s| && forall i :: 0 <= i < |s| ==> r[i] == if s[i] == '*' then ' ' else s[i]
  {
    seq(|s|, i requires 0 <= i < |s| => if s[i] == '*' then ' ' else s[i])
  }

  function NameText(name: Option<string>): string {
    if name.Some? then Starred(name.v) else "*"
  }

  function ClidText(clid: seq<nat>): string
    requires IsBytes(clid)
  {
    if clid != [] then HexBytes(clid) else "*"
  }

  function Fields(e: Entry): (w: seq<string>)
    requires Saveable(e)
    ensures |w| == 5
  {
    [Dec(e.expires), HwText(e.hw.kind, e.hw.bytes), Quad(e.addr), NameText(e.name), ClidText(e.clid)]
  }

  function Line(e: Entry): string
    requires Saveable(e)
  {
    var w := Fields(e);
    w[0] + " " + (w[1] + " " + (w[2] + " " + (w[3] + " " + (w[4] + "\n"))))
  }

  // What lease_init makes of five words.
  function ParseFields(w: seq<string>): Entry
    requires |w| == 5
  {
    var h := ParseHex(w[1], true, LeaseText.CHADDR_MAX);
    var kind := if h.kind == 0 && h.bytes != [] then ETHER else h.kind;
    Entry(InetAddr(w[2]), Hw(kind, h.bytes),
          if w[4] == "*" then [] else ParseHex(w[4], false, CLID_MAX).bytes,
          FromDec(w[0]),
          if w[3] == "*" then None else Some(Unstarred(w[3])))
  }

  lemma NameRoundTrip(name: Option<string>)
    requires name.Some? ==> GoodName(name.v)
    ensures NameText(name) == "*" <==> name.None? || name == Some(" ")
    ensures name.Some? ==> Unstarred(NameText(name)) == name.v
  {
    if name.Some? {
      var s := name.v;
      assert Unstarred(Starred(s)) == s;
      assert |s| == 1 && s[0] == ' ' ==> s == " ";
    }
  }

  lemma ClidRoundTrip(clid: seq<nat>)
    requires IsBytes(clid) && |clid| <= CLID_MAX
    ensures (if ClidText(clid) == "*" then [] else ParseHex(ClidText(clid), false, CLID_MAX).bytes) == ToBytes(clid)
  {
    hide ParseFrom;
    if clid != [] {
      var s := HexBytes(clid);
      HexRoundTrip(clid[0]);
      assert s[0] == Hex2(clid[0])[0] && s != "*";
      assert s[0..] == s;
      HexBytesParse(s, 0, clid, Hex(0, []), false, CLID_MAX);
      assert [] + ToBytes(clid) == ToBytes(clid);
    }
  }

  // The entry has neither an address of hardware type 0, which is read as ethernet, nor a
  // single blank for a name, which is written as if there were none.
  predicate Returns(e: Entry)
    requires e.hw.Hw?
  {
    !(e.hw.kind == 0 && e.hw.bytes != []) && e.name != Some(" ")
  }

  // A line gives back the lease exactly but for these two, and changes nothing else then.
  lemma FieldsRoundTrip(e: Entry)
    requires Saveable(e)
    ensures ParseFields(Fields(e)) == e <==> Returns(e)
    ensures var r := ParseFields(Fields(e));
      r == e.(hw := r.hw, name := r.name) && r.name == if e.name == Some(" ") then None else e.name
  {
    hide ParseHex, HwText, Dec, FromDec, Quad, InetAddr, NameText, ClidText, Unstarred;
    DecRoundTrip(e.expires);
    HwParses(e.hw.kind, e.hw.bytes);
    QuadRoundTrip(e.addr);
    NameRoundTrip(e.name);
    ClidRoundTrip(e.clid);
    assert ToBytes(e.hw.bytes) == e.hw.bytes;
    assert ToBytes(e.clid) == e.clid;
  }

  // ---------- words of a text ----------

  predicate White(c: char) {
    c == ' ' || c == '\n'
  }

  predicate Word(s: string) {
    s != "" && forall i :: 0 <= i < |s| ==> !White(s[i])
  }

  function WordEnd(s: string): (k: nat)
    ensures k <= |s|
    ensures k < |s| ==> White(s[k])
    ensures forall i :: 0 <= i < k ==> !White(s[i])
  {
    if s == "" || White(s[0]) then 0 else 1 + WordEnd(s[1..])
  }

  // What fscanf reads one after the other.
  function Words(s: string): seq<string>
    decreases |s|
  {
    if s == "" then []
    else if White(s[0]) then Words(s[1..])
    else [s[..WordEnd(s)]] + Words(s[WordEnd(s)..])
  }

  lemma WordEndIs(s: string, k: nat)
    requires k <= |s| && (forall i :: 0 <= i < k ==> !White(s[i])) && (k < |s| ==> White(s[k]))
    ensures WordEnd(s) == k
  {
  }

  lemma FirstWord(w: string, c: char, rest: string)
    requires Word(w) && White(c)
    ensures Words(w + [c] + rest) == [w] + Words(rest)
  {
    var s := w + [c] + rest;
    WordEndIs(s, |w|);
    assert s[..|w|] == w && s[|w|..] == [c] + rest && ([c] + rest)[1..] == rest;
  }

  lemma DigitsAreWords(n: nat)
    ensures Word(Dec(n))
  {
  }

  predicate Plain(s: string) {
    forall i :: 0 <= i < |s| ==> !White(s[i])
  }

  lemma PlainConcat(a: string, b: string)
    requires Plain(a) && Plain(b)
    ensures Plain(a + b)
  {
  }

  lemma {:induction false} HexPlain(b: seq<nat>)
    requires IsBytes(b)
    ensures Plain(HexBytes(b)) && (b != [] ==> HexBytes(b) != "")
  {
    if b != [] {
      HexRoundTrip(b[0]);
      assert Plain(Hex2(b[0]));
      if |b| > 1 {
        HexPlain(b[1..]);
      }
    }
  }

  lemma HwIsWord(kind: nat, bytes: seq<nat>)
    requires kind < 256 && IsBytes(bytes)
    ensures Word(HwText(kind, bytes))
  {
    hide HexBytes;
    HexPlain(bytes);
    HexRoundTrip(kind);
    assert Plain(Hex2(kind) + "-");
    PlainConcat(Hex2(kind) + "-", HexBytes(bytes));
  }

  lemma ClidIsWord(clid: seq<nat>)
    requires IsBytes(clid)
    ensures Word(ClidText(clid))
  {
    hide HexBytes;
    HexPlain(clid);
  }

  lemma NameIsWord(name: Option<string>)
    requires name.Some? ==> GoodName(name.v)
    ensures Word(NameText(name))
  {
    if name.Some? {
      forall i | 0 <= i < |name.v|
        ensures !White(Starred(name.v)[i])
      {
        assert NameChar(name.v[i]);
      }
    }
  }

  lemma FieldsAreWords(e: Entry)
    requires Saveable(e)
    ensures forall i :: 0 <= i < 5 ==> Word(Fields(e)[i])
  {
    hide Word, HwText, ClidText, NameText, Quad, Dec;
    DigitsAreWords(e.expires);
    HwIsWord(e.hw.kind, e.hw.bytes);
    QuadPlain(e.addr);
    NameIsWord(e.name);
    ClidIsWord(e.clid);
  }

  lemma QuadPlain(a: nat)
    ensures Word(Quad(a))
  {
    hide Dec;
    var w0, w1, w2, w3 := Dec(a / 0x1000000 % 256), Dec(a / 0x10000 % 256), Dec(a / 256 % 256), Dec(a % 256);
    PlainConcat(w2 + ".", w3);
    PlainConcat(w1 + ".", w2 + "." + w3);
    PlainConcat(w0 + ".", w1 + "." + (w2 + "." + w3));
  }

  lemma LineWords(e: Entry, rest: string)
    requires Saveable(e)
    ensures Words(Line(e) + rest) == Fields(e) + Words(rest)
  {
    hide Fields, Words;
    FieldsAreWords(e);
    var w := Fields(e);
    var s4 := w[4] + "\n" + rest;
    var s3 := w[3] + " " + s4;
    var s2 := w[2] + " " + s3;
    var s1 := w[1] + " " + s2;
    assert Line(e) + rest == w[0] + " " + s1;
    FirstWord(w[4], '\n', rest);
    FirstWord(w[3], ' ', s4);
    FirstWord(w[2], ' ', s3);
    FirstWord(w[1], ' ', s2);
    FirstWord(w[0], ' ', s1);
    assert [w[0]] + ([w[1]] + ([w[2]] + ([w[3]] + ([w[4]] + Words(rest))))) == w + Words(rest);
  }

  // ---------- the whole file ----------

  function EntriesOf(ls: seq<Lease>): (r: seq<Entry>)
    ensures |r| == |ls| && forall i :: 0 <= i < |ls| ==> r[i] == EntryOf(ls[i])
  {
    seq(|ls|, i requires 0 <= i < |ls| => EntryOf(ls[i]))
  }

  predicate AllSaveable(es: seq<Entry>) {
    forall i :: 0 <= i < |es| ==> Saveable(es[i])
  }

  // lease_update_file.
  function Save(es: seq<Entry>): string
    requires AllSaveable(es)
  {
    if es == [] then "" else Line(es[0]) + Save(es[1..])
  }

  // Bytes with colons between them.
  method WriteHex(b: seq<nat>) returns (text: string)
    requires IsBytes(b)
    ensures text == HexBytes(b)
  {
    hide Hex2;
    text := "";
    var i := 0;
    while i < |b|
      invariant 0 <= i <= |b| && text + HexBytes(b[i..]) == HexBytes(b)
    {
      assert b[i..][1..] == b[i + 1..];
      ghost var before := text;
      text := text + Hex2(b[i]);
      if i != |b| - 1 {
        text := text + ":";
        assert before + (Hex2(b[i]) + ":" + HexBytes(b[i + 1..])) == text + HexBytes(b[i + 1..]);
      } else {
        assert before + Hex2(b[i]) == text + "";
      }
      i := i + 1;
    }
    assert text + "" == text;
  }

  method WriteName(name: Option<string>) returns (text: string)
    ensures text == NameText(name)
  {
    if name.None? {
      return "*";
    }
    text := "";
    for i := 0 to |name.v|
      invariant text == Starred(name.v)[..i]
    {
      var c := name.v[i];
      text := text + [if c == ' ' then '*' else c];
    }
  }

  method LeaseUpdateFile(ls: seq<Lease>) returns (text: string)
    requires AllSaveable(EntriesOf(ls))
    ensures text == Save(EntriesOf(ls))
  {
    hide Line, HexBytes, NameText;
    ghost var es := EntriesOf(ls);
    text := "";
    assert es[0..] == es;
    var i := 0;
    while i < |ls|
      invariant 0 <= i <= |ls| && text + Save(es[i..]) == Save(es)
    {
      assert es[i..][1..] == es[i + 1..] && Saveable(es[i]);
      var line := WriteLine(ls[i]);
      assert text + (line + Save(es[i + 1..])) == (text + line) + Save(es[i + 1..]);
      text := text + line;
      i := i + 1;
    }
    assert text + "" == text;
  }

  method WriteLine(l: Lease) returns (text: string)
    requires Saveable(EntryOf(l))
    ensures text == Line(EntryOf(l))
  {
    hide HexBytes, NameText, Hex2, Dec, Quad;
    text := Dec(l.expires) + " ";
    var hw := "";
    if l.hw.kind != ETHER || l.hw.bytes == [] {
      hw := Hex2(l.hw.kind) + "-";
    }
    var bytes := WriteHex(l.hw.bytes);
    hw := hw + bytes;
    var name := WriteName(l.hostname);
    var clid := "*";
    if l.clid != [] {
      clid := WriteHex(l.clid);
    }
    text := text + (hw + " " + (Quad(l.addr) + " " + (name + " " + (clid + "\n"))));
  }

  // Five words make a lease; the loop of lease_init ends at anything less.
  function Entries(words: seq<string>): seq<Entry>
    decreases |words|
  {
    if |words| < 5 then [] else [ParseFields(words[..5])] + Entries(words[5..])
  }

  predicate AllReturn(es: seq<Entry>)
    requires AllSaveable(es)
  {
    forall i :: 0 <= i < |es| ==> Returns(es[i])
  }

  lemma {:induction false} SavedWords(es: seq<Entry>)
    requires AllSaveable(es)
    ensures Entries(Words(Save(es))) == es <==> AllReturn(es)
  {
    hide Fields, ParseFields, Words, Line, Returns;
    if es == [] {
      NoWords();
    } else {
      LineWords(es[0], Save(es[1..]));
      FieldsRoundTrip(es[0]);
      SavedWords(es[1..]);
      var w := Words(Save(es));
      assert w[..5] == Fields(es[0]) && w[5..] == Words(Save(es[1..]));
      assert es == [es[0]] + es[1..];
      assert AllReturn(es) <==> Returns(es[0]) && AllReturn(es[1..]) by {
        hide Saveable;
        assert forall i :: 1 <= i < |es| ==> es[i] == es[1..][i - 1];
      }
    }
  }

  lemma NoWords()
    ensures Words("") == []
  {
  }

  // ---------- the table after loading ----------

  // lease_init, before it prunes.
  function LoadAll(s: Leases, es: seq<Entry>): Leases
    requires s.left >= |es|
    decreases |es|
  {
    if es == [] then s
    else
      var e := es[0];
      var r := LoadLease(s, e.addr, e.hw, e.clid, e.expires, e.name);
      LoadLeft(s, e);
      LoadAll(r, es[1..])
  }

  lemma LoadLeft(s: Leases, e: Entry)
    requires s.left > 0
    ensures LoadLease(s, e.addr, e.hw, e.clid, e.expires, e.name).left == s.left - 1
  {
  }

  // No two of the names are the same, whatever the case.
  predicate DistinctEntryNames(es: seq<Entry>) {
    forall i, j :: 0 <= i < j < |es| ==> !SameName(es[i].name, es[j].name)
  }

  predicate NoneNamed(ls: seq<Lease>, name: Option<string>) {
    forall i :: 0 <= i < |ls| ==> !SameName(ls[i].hostname, name)
  }

  // A lease is added in front, as the file has it; the others stay.
  lemma LoadOne(s: Leases, e: Entry)
    requires s.left > 0 && NoneNamed(s.live, e.name)
    ensures var r := LoadLease(s, e.addr, e.hw, e.clid, e.expires, e.name);
      |r.live| == |s.live| + 1 && r.live[1..] == s.live && EntryOf(r.live[0]) == e
  {
    hide SameName;
    var s1 := Allocate(s, e.addr, true);
    var s2 := s1.(live := s1.live[0 := s1.live[0].(expires := e.expires)]);
    var s3 := SetHwaddr(s2, 0, e.hw, e.clid, true);
    assert s3.live[1..] == s.live;
    assert EntryOf(s3.live[0]) == e.(name := None);
    if e.name.Some? {
      Unnamed0(s3.live[0].hostname, e.name);
      assert forall i :: 1 <= i < |s3.live| ==> s3.live[i] == s.live[i - 1];
      assert Rob(s3.live, e.name) == s3.live && !Refused(s3.live, e.name, false) by {
        NobodyHas(s3.live, e.name);
      }
    }
  }

  lemma Unnamed0(a: Option<string>, b: Option<string>)
    requires a.None?
    ensures !SameName(a, b)
  {
  }

  lemma NobodyHas(ls: seq<Lease>, name: Option<string>)
    requires name.Some? && NoneNamed(ls, name)
    ensures Rob(ls, name) == ls && !Refused(ls, name, false)
  {
    assert NameHolder(ls, name.v) == |ls|;
  }

  function Reversed(es: seq<Entry>): (r: seq<Entry>)
    ensures |r| == |es|
  {
    if es == [] then [] else Reversed(es[1..]) + [es[0]]
  }

  lemma StillUnnamed(live: seq<Lease>, live': seq<Lease>, es: seq<Entry>)
    requires es != [] && DistinctEntryNames(es) && |live'| == |live| + 1 && live'[1..] == live
    requires EntryOf(live'[0]) == es[0]
    requires forall i :: 0 <= i < |es| ==> NoneNamed(live, es[i].name)
    ensures DistinctEntryNames(es[1..])
    ensures forall i :: 0 <= i < |es[1..]| ==> NoneNamed(live', es[1..][i].name)
  {
    hide SameName;
    assert forall i :: 0 <= i < |es[1..]| ==> es[1..][i] == es[i + 1];
    assert forall k :: 1 <= k < |live'| ==> live'[k] == live[k - 1];
  }

  lemma EntriesCons(live: seq<Lease>, live': seq<Lease>, e: Entry)
    requires |live'| == |live| + 1 && live'[1..] == live && EntryOf(live'[0]) == e
    ensures EntriesOf(live') == [e] + EntriesOf(live)
  {
    assert forall k :: 1 <= k < |live'| ==> live'[k] == live[k - 1];
  }

  lemma {:induction false} LoadsReversed(s: Leases, es: seq<Entry>)
    requires s.left >= |es| && DistinctEntryNames(es)
    requires forall i :: 0 <= i < |es| ==> NoneNamed(s.live, es[i].name)
    ensures EntriesOf(LoadAll(s, es).live) == Reversed(es) + EntriesOf(s.live)
    decreases |es|
  {
    hide LoadLease, SameName, DistinctEntryNames, NoneNamed, EntryOf;
    if es == [] {
      assert [] + EntriesOf(s.live) == EntriesOf(s.live);
    } else {
      var e := es[0];
      var r := LoadLease(s, e.addr, e.hw, e.clid, e.expires, e.name);
      LoadOne(s, e);
      LoadLeft(s, e);
      StillUnnamed(s.live, r.live, es);
      LoadsReversed(r, es[1..]);
      EntriesCons(s.live, r.live, e);
      assert Reversed(es[1..]) + ([e] + EntriesOf(s.live)) == Reversed(es) + EntriesOf(s.live);
    }
  }

  // The saved file reads as the same entries exactly if each of them comes back, and
  // loading entries gives leases with them in reverse order.
  lemma SaveAndLoad(ls: seq<Lease>, max: nat)
    requires AllSaveable(EntriesOf(ls)) && DistinctNames(ls) && |ls| <= max
    ensures Entries(Words(Save(EntriesOf(ls)))) == EntriesOf(ls) <==> AllReturn(EntriesOf(ls))
    ensures EntriesOf(LoadAll(Start(max).s, EntriesOf(ls)).live) == Reversed(EntriesOf(ls))
  {
    hide SameName, Words, Entries, Save, AllReturn;
    var es := EntriesOf(ls);
    SavedWords(es);
    LoadsReversed(Start(max).s, es);
    assert EntriesOf([]) == [];
    assert Reversed(es) + [] == Reversed(es);
  }
}
