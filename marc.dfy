/**
 * Field selection in a MARC 21 bibliographic record, as the harvester does it
 * on the parsed MARCXML answer of a catalogue: the title from the first 245
 * field (title statement), the RVK notations from the 084 fields (other
 * classification number) whose $2 (source of number) reads exactly "rvk",
 * each notation paired with its label from the RVK web service.
 *
 * The record is the already-parsed sequence of datafields in document order;
 * a subfield or field without a `code` / `tag` attribute is one whose code
 * or tag is "", which no selection below matches.
 */
module Marc {
  import opened Wrappers
  import opened Text
  import opened Endpoints

  datatype Subfield = Subfield(code: string, text: string)
  datatype Datafield = Datafield(tag: string, subfields: seq<Subfield>)
  type Record = seq<Datafield>

  /** An RVK notation with its label (`benennung`). */
  type Labelled = (string, string)

  const TitleTag := "245"
  const ClassificationTag := "084"
  const SourceCode := "2"
  const RvkSource := "rvk"
  const NotationCode := "a"
  const TitleSeparator := " : "

  /** The RVK web service: the label it answers for each node request that
      succeeds. A request absent from the map is one answered with an HTTP
      error status. */
  type LabelService = map<string, string>

  // ---------------------------------------------------------------------
  // Searching the parsed tree (BeautifulSoup's find / find_all)
  // ---------------------------------------------------------------------

  /** Position of the first field with `tag`, or |rec| when there is none. */
  function FirstField(rec: Record, tag: string): (k: nat)
    ensures k <= |rec|
    ensures k < |rec| ==> rec[k].tag == tag
    ensures forall j :: 0 <= j < k ==> rec[j].tag != tag
  {
    if rec == [] then 0
    else if rec[0].tag == tag then 0
    else 1 + FirstField(rec[1..], tag)
  }

  /** Position of the first subfield with `code`, or |subs| when there is none. */
  function FirstSubfield(subs: seq<Subfield>, code: string): (k: nat)
    ensures k <= |subs|
    ensures k < |subs| ==> subs[k].code == code
    ensures forall j :: 0 <= j < k ==> subs[j].code != code
  {
    if subs == [] then 0
    else if subs[0].code == code then 0
    else 1 + FirstSubfield(subs[1..], code)
  }

  /** All fields with `tag`, in document order. */
  function FieldsTagged(rec: Record, tag: string): (r: seq<Datafield>)
    ensures forall k :: 0 <= k < |r| ==> r[k].tag == tag
    ensures forall k :: 0 <= k < |rec| && rec[k].tag == tag ==> rec[k] in r
  {
    if rec == [] then []
    else
      FieldsTagged(rec[..|rec| - 1], tag) + (if rec[|rec| - 1].tag == tag then [rec[|rec| - 1]] else [])
  }

  /** All subfields with `code`, in document order. */
  function SubfieldsCoded(subs: seq<Subfield>, code: string): (r: seq<Subfield>)
    ensures forall k :: 0 <= k < |r| ==> r[k].code == code
    ensures forall k :: 0 <= k < |subs| && subs[k].code == code ==> subs[k] in r
  {
    if subs == [] then []
    else
      SubfieldsCoded(subs[..|subs| - 1], code) + (if subs[|subs| - 1].code == code then [subs[|subs| - 1]] else [])
  }

  // ---------------------------------------------------------------------
  // Title
  // ---------------------------------------------------------------------

  predicate IsTitlePart(sf: Subfield) {
    sf.code == "a" || sf.code == "b"
  }

  /** The stripped texts of the title-proper and remainder-of-title subfields. */
  function TitleParts(subs: seq<Subfield>): seq<string> {
    if subs == [] then []
    else
      var last := subs[|subs| - 1];
      TitleParts(subs[..|subs| - 1]) + (if IsTitlePart(last) then [Strip(last.text)] else [])
  }

  /** The title the harvester reads from a record. */
  function Title(rec: Record): Option<string> {
    var k := FirstField(rec, TitleTag);
    if k == |rec| then None
    else Some(Strip(Join(TitleParts(rec[k].subfields), TitleSeparator)))
  }

  // ---------------------------------------------------------------------
  // RVK notations
  // ---------------------------------------------------------------------

  /** How many of the given $2 subfields name RVK as the source. */
  function RvkMarks(sources: seq<Subfield>): nat {
    if sources == [] then 0
    else RvkMarks(sources[..|sources| - 1]) + (if sources[|sources| - 1].text == RvkSource then 1 else 0)
  }

  function Repeat(x: string, n: nat): (r: seq<string>)
    ensures |r| == n && forall k :: 0 <= k < n ==> r[k] == x
  {
    if n == 0 then [] else Repeat(x, n - 1) + [x]
  }

  /** The first $a of a field, stripped; `None` when the field has no $a. */
  function FirstNotation(f: Datafield): Option<string> {
    var a := FirstSubfield(f.subfields, NotationCode);
    if a == |f.subfields| then None else Some(Strip(f.subfields[a].text))
  }

  /** The notations `sources` call for: the field's first notation once per
      $2 among them that reads "rvk"; nothing when the field has no $a. */
  function Marked(f: Datafield, sources: seq<Subfield>): seq<string> {
    match FirstNotation(f)
    case None => []
    case Some(n) => Repeat(n, RvkMarks(sources))
  }

  /** What one 084 field contributes: its first $a, stripped, once per $2
      that reads "rvk"; nothing when it has no $a. */
  function FieldNotations(f: Datafield): seq<string> {
    Marked(f, SubfieldsCoded(f.subfields, SourceCode))
  }

  /** The notations of a sequence of 084 fields, in document order. */
  function NotationsOf(fields: seq<Datafield>): seq<string> {
    if fields == [] then []
    else NotationsOf(fields[..|fields| - 1]) + FieldNotations(fields[|fields| - 1])
  }

  /** The RVK notations of a record, before their labels are looked up. */
  function RvkNotations(rec: Record): seq<string> {
    NotationsOf(FieldsTagged(rec, ClassificationTag))
  }

  // ---------------------------------------------------------------------
  // Labels and the whole extraction
  // ---------------------------------------------------------------------

  /** The label lookup for one notation; `None` is the SystemExit raised when
      the service answers with an error status. */
  function LabelOf(notation: string, service: LabelService): (r: Option<string>)
    ensures r.Some? <==> RvkQuery(notation) in service
  {
    var url := RvkQuery(notation);
    if url in service then Some(service[url]) else None
  }

  predicate AllLabelled(notations: seq<string>, service: LabelService) {
    forall k :: 0 <= k < |notations| ==> RvkQuery(notations[k]) in service
  }

  /** Each notation paired with its label, in order. */
  function WithLabels(notations: seq<string>, service: LabelService): (r: seq<Labelled>)
    requires AllLabelled(notations, service)
    ensures |r| == |notations|
  {
    if notations == [] then []
    else
      WithLabels(notations[..|notations| - 1], service)
        + [(notations[|notations| - 1], service[RvkQuery(notations[|notations| - 1])])]
  }

  /** The result of `extract_rvk`: the title and the labelled notations, or
      the SystemExit that a failed label lookup raises through it. */
  datatype Extraction = Extracted(title: Option<string>, notations: seq<Labelled>) | Exit

  function Extract(rec: Record, service: LabelService): Extraction {
    var ns := RvkNotations(rec);
    if AllLabelled(ns, service) then Extracted(Title(rec), WithLabels(ns, service)) else Exit
  }

  // ---------------------------------------------------------------------
  // Lemmas used by ExtractRvk
  // ---------------------------------------------------------------------

  lemma {:induction false} RvkMarksPrefix(sources: seq<Subfield>, j: nat)
    requires j <= |sources|
    ensures RvkMarks(sources[..j]) <= RvkMarks(sources)
    decreases |sources|
  {
    if j < |sources| {
      var init := sources[..|sources| - 1];
      assert sources[..j] == init[..j];
      RvkMarksPrefix(init, j);
    } else {
      assert sources[..j] == sources;
    }
  }

  lemma {:induction false} NotationsOfMember(fields: seq<Datafield>, i: nat, x: string)
    requires i < |fields| && x in FieldNotations(fields[i])
    ensures x in NotationsOf(fields)
  {
    var init := fields[..|fields| - 1];
    if i < |fields| - 1 {
      assert fields[i] == init[i];
      NotationsOfMember(init, i, x);
    }
  }

  lemma UnlabelledField(fields: seq<Datafield>, i: nat, service: LabelService)
    requires i < |fields| && !AllLabelled(FieldNotations(fields[i]), service)
    ensures !AllLabelled(NotationsOf(fields), service)
  {
    var ns := FieldNotations(fields[i]);
    var k :| 0 <= k < |ns| && RvkQuery(ns[k]) !in service;
    NotationsOfMember(fields, i, ns[k]);
  }

  lemma WithLabelsSnoc(ns: seq<string>, x: string, service: LabelService)
    requires AllLabelled(ns, service) && RvkQuery(x) in service
    ensures AllLabelled(ns + [x], service)
    ensures WithLabels(ns + [x], service) == WithLabels(ns, service) + [(x, service[RvkQuery(x)])]
  {
    assert (ns + [x])[..|ns|] == ns;
  }

  /** Position by position, the labelled list pairs each notation with the
      label the service answers for it. */
  lemma {:induction false} WithLabelsAt(ns: seq<string>, service: LabelService)
    requires AllLabelled(ns, service)
    ensures forall k :: 0 <= k < |ns| ==> WithLabels(ns, service)[k] == (ns[k], service[RvkQuery(ns[k])])
  {
    if ns != [] {
      WithLabelsAt(ns[..|ns| - 1], service);
    }
  }

  lemma WithLabelsAppend(ns: seq<string>, more: seq<string>, service: LabelService)
    requires AllLabelled(ns, service) && AllLabelled(more, service)
    ensures AllLabelled(ns + more, service)
    ensures WithLabels(ns + more, service) == WithLabels(ns, service) + WithLabels(more, service)
  {
    WithLabelsAt(ns, service);
    WithLabelsAt(more, service);
    WithLabelsAt(ns + more, service);
  }

  /** The title loop of `extract_rvk`: the $a and $b texts of the first 245
      field, stripped, joined by " : ", stripped again. */
  method ReadTitle(rec: Record) returns (title: Option<string>)
    ensures title == Title(rec)
  {
    title := None;
    var k := FirstField(rec, TitleTag);
    if k < |rec| {
      var subfields := rec[k].subfields;
      var parts: seq<string> := [];
      for i := 0 to |subfields|
        invariant parts == TitleParts(subfields[..i])
      {
        TitlePartsStep(subfields, i);
        if IsTitlePart(subfields[i]) {
          parts := parts + [Strip(subfields[i].text)];
        }
      }
      assert subfields[..|subfields|] == subfields;
      title := Some(Strip(Join(parts, TitleSeparator)));
    }
  }

  lemma TitlePartsStep(subs: seq<Subfield>, i: nat)
    requires i < |subs|
    ensures TitleParts(subs[..i + 1]) ==
      TitleParts(subs[..i]) + (if IsTitlePart(subs[i]) then [Strip(subs[i].text)] else [])
  {
    assert subs[..i + 1][..i] == subs[..i];
  }

  /** The inner loop of `extract_rvk` over one 084 field: for every $2 that
      reads "rvk", the field's first $a, stripped, with its label. `None`
      when a lookup fails. */
  method LabelField(field: Datafield, service: LabelService) returns (r: Option<seq<Labelled>>)
    ensures r.Some? <==> AllLabelled(FieldNotations(field), service)
    ensures r.Some? ==> r.value == WithLabels(FieldNotations(field), service)
  {
    var sources := SubfieldsCoded(field.subfields, SourceCode);
    var pairs: seq<Labelled> := [];
    ghost var cur: seq<string> := [];
    for j := 0 to |sources|
      invariant cur == Marked(field, sources[..j])
      invariant AllLabelled(cur, service) && pairs == WithLabels(cur, service)
    {
      MarkedStep(field, sources, j);
      if sources[j].text == RvkSource {
        var a := FirstSubfield(field.subfields, NotationCode);
        if a < |field.subfields| {
          var notation := Strip(field.subfields[a].text);
          var benennung := LabelOf(notation, service);
          if benennung.None? {
            UnlabelledNotation(field, j, service);
            return None;
          }
          WithLabelsSnoc(cur, notation, service);
          pairs := pairs + [(notation, benennung.value)];
          cur := cur + [notation];
        }
      }
    }
    assert sources[..|sources|] == sources;
    r := Some(pairs);
  }

  lemma MarkedStep(f: Datafield, sources: seq<Subfield>, j: nat)
    requires j < |sources|
    ensures Marked(f, sources[..j + 1]) == Marked(f, sources[..j]) +
      (if sources[j].text == RvkSource && FirstNotation(f).Some? then [FirstNotation(f).value] else [])
  {
    assert sources[..j + 1][..j] == sources[..j];
  }

  /** A field's first notation that the service cannot label, called for by
      one of its "rvk" sources, leaves the field unlabelled. */
  lemma UnlabelledNotation(f: Datafield, j: nat, service: LabelService)
    requires j < |SubfieldsCoded(f.subfields, SourceCode)|
    requires SubfieldsCoded(f.subfields, SourceCode)[j].text == RvkSource
    requires FirstNotation(f).Some? && RvkQuery(FirstNotation(f).value) !in service
    ensures !AllLabelled(FieldNotations(f), service)
  {
    var sources := SubfieldsCoded(f.subfields, SourceCode);
    RvkMarksPrefix(sources, j + 1);
    assert sources[..j + 1][..j] == sources[..j];
    assert FieldNotations(f)[0] == FirstNotation(f).value;
  }

  /**
   * `extract_rvk`: the title, then the 084 fields one by one. A failed label
   * lookup ends the extraction with SystemExit, discarding the title too.
   */
  method ExtractRvk(rec: Record, service: LabelService) returns (r: Extraction)
    ensures r == Extract(rec, service)
  {
    var title := ReadTitle(rec);
    var fields := FieldsTagged(rec, ClassificationTag);
    var pairs: seq<Labelled> := [];
    for i := 0 to |fields|
      invariant AllLabelled(NotationsOf(fields[..i]), service)
      invariant pairs == WithLabels(NotationsOf(fields[..i]), service)
    {
      ghost var done := NotationsOf(fields[..i]);
      assert NotationsOf(fields[..i + 1]) == done + FieldNotations(fields[i]) by {
        assert fields[..i + 1][..i] == fields[..i];
      }
      var found := LabelField(fields[i], service);
      if found.None? {
        UnlabelledField(fields, i, service);
        return Exit;
      }
      WithLabelsAppend(done, FieldNotations(fields[i]), service);
      pairs := pairs + found.value;
    }
    assert fields[..|fields|] == fields;
    assert NotationsOf(fields) == RvkNotations(rec);
    r := Extracted(title, pairs);
  }

  // ---------------------------------------------------------------------
  // Properties of the selection
  // ---------------------------------------------------------------------

  /** The title is absent exactly when the record has no 245 field; with one,
      it is read from the first 245 field alone and is stripped. */
  lemma {:induction false} TitleFromFirst245(rec: Record)
    ensures Title(rec).None? <==> forall i :: 0 <= i < |rec| ==> rec[i].tag != TitleTag
    ensures forall i :: 0 <= i < |rec| && rec[i].tag == TitleTag && (forall j :: 0 <= j < i ==> rec[j].tag != TitleTag) ==>
      Title(rec) == Some(Strip(Join(TitleParts(rec[i].subfields), TitleSeparator)))
    ensures Title(rec).Some? ==> IsStripped(Title(rec).value)
  {
    var k := FirstField(rec, TitleTag);
    forall i | 0 <= i < |rec| && rec[i].tag == TitleTag && (forall j :: 0 <= j < i ==> rec[j].tag != TitleTag)
      ensures i == k
    {
      assert !(i < k);
    }
  }

  lemma {:induction false} FirstFieldAppend(rec: Record, more: Record, tag: string)
    requires FirstField(rec, tag) < |rec|
    ensures FirstField(rec + more, tag) == FirstField(rec, tag)
  {
    if rec[0].tag != tag {
      assert (rec + more)[1..] == rec[1..] + more;
      FirstFieldAppend(rec[1..], more, tag);
    }
  }

  /** Fields after the first 245 never change the title. */
  lemma {:induction false} TitleIgnoresLaterFields(rec: Record, more: Record)
    requires exists i :: 0 <= i < |rec| && rec[i].tag == TitleTag
    ensures Title(rec + more) == Title(rec)
  {
    FirstFieldAppend(rec, more, TitleTag);
    var k := FirstField(rec, TitleTag);
    assert (rec + more)[k] == rec[k];
  }

  /** Title parts keep document order: the parts of two runs of subfields
      are the parts of the first followed by those of the second. */
  lemma {:induction false} TitlePartsAppend(xs: seq<Subfield>, ys: seq<Subfield>)
    ensures TitleParts(xs + ys) == TitleParts(xs) + TitleParts(ys)
    decreases |ys|
  {
    if ys != [] {
      var ys' := ys[..|ys| - 1];
      assert (xs + ys)[..|xs + ys| - 1] == xs + ys';
      TitlePartsAppend(xs, ys');
    } else {
      assert xs + ys == xs;
    }
  }

  /** Only $a and $b subfields give title parts, one part each. */
  lemma {:induction false} TitlePartsCount(subs: seq<Subfield>)
    ensures |TitleParts(subs)| == |set k | 0 <= k < |subs| && IsTitlePart(subs[k])|
  {
    if subs != [] {
      var n := |subs| - 1;
      TitlePartsCount(subs[..n]);
      TitlePartsStep(subs, n);
      assert subs[..n + 1] == subs;
      TitlePartSetStep(subs, subs[..n]);
    }
  }

  lemma TitlePartSetStep(subs: seq<Subfield>, init: seq<Subfield>)
    requires subs != [] && init == subs[..|subs| - 1]
    ensures |set k | 0 <= k < |subs| && IsTitlePart(subs[k])|
      == |set k | 0 <= k < |init| && IsTitlePart(init[k])| + (if IsTitlePart(subs[|subs| - 1]) then 1 else 0)
  {
    var n := |subs| - 1;
    var before := set k | 0 <= k < n && IsTitlePart(init[k]);
    var after := set k | 0 <= k < |subs| && IsTitlePart(subs[k]);
    assert forall k :: 0 <= k < n ==> init[k] == subs[k];
    if IsTitlePart(subs[n]) {
      assert n !in before;
      assert after == before + {n};
    } else {
      assert after == before;
    }
  }

  /** A 245 field without $a and $b still yields a title: the empty one. */
  lemma {:induction false} TitleWithoutParts(rec: Record)
    requires FirstField(rec, TitleTag) < |rec|
    requires forall k :: 0 <= k < |rec[FirstField(rec, TitleTag)].subfields| ==>
      !IsTitlePart(rec[FirstField(rec, TitleTag)].subfields[k])
    ensures Title(rec) == Some("")
  {
    TitlePartsCount(rec[FirstField(rec, TitleTag)].subfields);
  }

  /** The final strip acts on the joined title: a blank $a before a
      non-blank $b leaves the separator's colon at the front. */
  lemma TitleKeepsColonOfBlankFirstPart(blank: string, rest: string)
    requires AllSpace(blank) && !AllSpace(rest)
    ensures Title([Datafield(TitleTag, [Subfield("a", blank), Subfield("b", rest)])]) == Some(": " + Strip(rest))
  {
    var rec := [Datafield(TitleTag, [Subfield("a", blank), Subfield("b", rest)])];
    assert FirstField(rec, TitleTag) == 0;
    TwoTitleParts(Subfield("a", blank), Subfield("b", rest));
    JoinTwo(Strip(blank), Strip(rest), TitleSeparator);
    assert Strip(blank) + TitleSeparator + Strip(rest) == " : " + Strip(rest);
    StripColon(Strip(rest));
  }

  lemma TwoTitleParts(x: Subfield, y: Subfield)
    requires IsTitlePart(x) && IsTitlePart(y)
    ensures TitleParts([x, y]) == [Strip(x.text), Strip(y.text)]
  {
    assert [x, y][..1] == [x];
    assert [x][..0] == [];
    assert TitleParts([x]) == [Strip(x.text)];
  }

  lemma JoinTwo(a: string, b: string, sep: string)
    ensures Join([a, b], sep) == a + sep + b
  {
    assert [a, b][..1] == [a];
  }

  lemma StripColon(t: string)
    requires t != [] && IsStripped(t)
    ensures Strip(" : " + t) == ": " + t
  {
    var s := " : " + t;
    assert IsSpace(s[0]) && !IsSpace(s[1]);
    assert LeadingSpaces(s) == 1;
    assert s[|s| - 1] == t[|t| - 1];
    assert TrailingSpaces(s) == 0;
    assert s[1..] == ": " + t;
  }

  lemma {:induction false} FieldsTaggedAppend(xs: Record, ys: Record, tag: string)
    ensures FieldsTagged(xs + ys, tag) == FieldsTagged(xs, tag) + FieldsTagged(ys, tag)
    decreases |ys|
  {
    if ys != [] {
      var ys' := ys[..|ys| - 1];
      assert (xs + ys)[..|xs + ys| - 1] == xs + ys';
      FieldsTaggedAppend(xs, ys', tag);
    } else {
      assert xs + ys == xs;
    }
  }

  lemma {:induction false} NotationsOfAppend(xs: seq<Datafield>, ys: seq<Datafield>)
    ensures NotationsOf(xs + ys) == NotationsOf(xs) + NotationsOf(ys)
    decreases |ys|
  {
    if ys != [] {
      var ys' := ys[..|ys| - 1];
      assert (xs + ys)[..|xs + ys| - 1] == xs + ys';
      NotationsOfAppend(xs, ys');
    } else {
      assert xs + ys == xs;
    }
  }

  /** Notations come out in document order: those of a record split in two
      are those of the first part followed by those of the second. */
  lemma RvkNotationsAppend(xs: Record, ys: Record)
    ensures RvkNotations(xs + ys) == RvkNotations(xs) + RvkNotations(ys)
  {
    FieldsTaggedAppend(xs, ys, ClassificationTag);
    NotationsOfAppend(FieldsTagged(xs, ClassificationTag), FieldsTagged(ys, ClassificationTag));
  }

  /** A field that is not an 084 field contributes nothing, wherever it stands. */
  lemma OtherFieldsIgnored(xs: Record, f: Datafield, ys: Record)
    requires f.tag != ClassificationTag
    ensures RvkNotations(xs + [f] + ys) == RvkNotations(xs + ys)
  {
    RvkNotationsAppend(xs + [f], ys);
    RvkNotationsAppend(xs, [f]);
    RvkNotationsAppend(xs, ys);
    assert FieldsTagged([f], ClassificationTag) == [] by {
      assert [f][..0] == [];
    }
    assert RvkNotations([f]) == [];
    assert RvkNotations(xs + [f]) == RvkNotations(xs);
  }

  lemma {:induction false} RvkMarksZero(subs: seq<Subfield>)
    ensures RvkMarks(SubfieldsCoded(subs, SourceCode)) == 0 <==>
      forall k :: 0 <= k < |subs| ==> !(subs[k].code == SourceCode && subs[k].text == RvkSource)
  {
    if subs != [] {
      var init := subs[..|subs| - 1];
      RvkMarksZero(init);
      var last := subs[|subs| - 1];
      var sources := SubfieldsCoded(subs, SourceCode);
      var initSources := SubfieldsCoded(init, SourceCode);
      if last.code == SourceCode {
        assert sources[..|sources| - 1] == initSources;
      } else {
        assert sources == initSources;
      }
      if forall k :: 0 <= k < |init| ==> !(init[k].code == SourceCode && init[k].text == RvkSource) {
        forall k | 0 <= k < |subs| - 1 ensures !(subs[k].code == SourceCode && subs[k].text == RvkSource) {
          assert subs[k] == init[k];
        }
      } else {
        var k :| 0 <= k < |init| && init[k].code == SourceCode && init[k].text == RvkSource;
        assert subs[k] == init[k];
      }
    }
  }

  /** An 084 field yields a notation exactly when it has a $a and at least
      one $2 whose text is exactly "rvk"; every notation it yields is its
      first $a, stripped. */
  lemma FieldNotationsWhen(f: Datafield)
    ensures FieldNotations(f) != [] <==>
      (exists k :: 0 <= k < |f.subfields| && f.subfields[k].code == NotationCode) &&
      (exists k :: 0 <= k < |f.subfields| && f.subfields[k].code == SourceCode && f.subfields[k].text == RvkSource)
    ensures forall x :: x in FieldNotations(f) ==>
      x == Strip(f.subfields[FirstSubfield(f.subfields, NotationCode)].text)
  {
    RvkMarksZero(f.subfields);
  }

  predicate IsRvkSource(sf: Subfield) {
    sf.code == SourceCode && sf.text == RvkSource
  }

  /** An 084 field with a $a yields one notation per $2 that reads "rvk". */
  lemma FieldNotationsCount(f: Datafield)
    ensures |FieldNotations(f)| ==
      if FirstNotation(f).None? then 0 else |set k | 0 <= k < |f.subfields| && IsRvkSource(f.subfields[k])|
  {
    RvkMarksCount(f.subfields);
  }

  lemma {:induction false} RvkMarksCount(subs: seq<Subfield>)
    ensures RvkMarks(SubfieldsCoded(subs, SourceCode)) == |set k | 0 <= k < |subs| && IsRvkSource(subs[k])|
  {
    if subs != [] {
      var n := |subs| - 1;
      var init := subs[..n];
      RvkMarksCount(init);
      var sources := SubfieldsCoded(subs, SourceCode);
      if subs[n].code == SourceCode {
        assert sources[..|sources| - 1] == SubfieldsCoded(init, SourceCode);
      } else {
        assert sources == SubfieldsCoded(init, SourceCode);
      }
      RvkSourceSetStep(subs, init);
    }
  }

  lemma RvkSourceSetStep(subs: seq<Subfield>, init: seq<Subfield>)
    requires subs != [] && init == subs[..|subs| - 1]
    ensures |set k | 0 <= k < |subs| && IsRvkSource(subs[k])|
      == |set k | 0 <= k < |init| && IsRvkSource(init[k])| + (if IsRvkSource(subs[|subs| - 1]) then 1 else 0)
  {
    var n := |subs| - 1;
    var before := set k | 0 <= k < n && IsRvkSource(init[k]);
    var after := set k | 0 <= k < |subs| && IsRvkSource(subs[k]);
    assert forall k :: 0 <= k < n ==> init[k] == subs[k];
    if IsRvkSource(subs[n]) {
      assert n !in before;
      assert after == before + {n};
    } else {
      assert after == before;
    }
  }

  /** Every notation of a record comes from one of its 084 fields that has a
      $2 reading "rvk": it is that field's first $a, stripped. */
  lemma RvkNotationSource(rec: Record, x: string)
    requires x in RvkNotations(rec)
    ensures exists i ::
              && 0 <= i < |rec| && rec[i].tag == ClassificationTag
              && FirstSubfield(rec[i].subfields, NotationCode) < |rec[i].subfields|
              && x == Strip(rec[i].subfields[FirstSubfield(rec[i].subfields, NotationCode)].text)
              && (exists k :: 0 <= k < |rec[i].subfields| &&
                    rec[i].subfields[k].code == SourceCode && rec[i].subfields[k].text == RvkSource)
  {
    var fields := FieldsTagged(rec, ClassificationTag);
    var j := NotationsOfSource(fields, x);
    var f := fields[j];
    FieldNotationsWhen(f);
    var i := FieldsTaggedFrom(rec, ClassificationTag, j);
  }

  lemma {:induction false} FieldsTaggedFrom(rec: Record, tag: string, j: nat) returns (i: nat)
    requires j < |FieldsTagged(rec, tag)|
    ensures i < |rec| && rec[i] == FieldsTagged(rec, tag)[j]
  {
    var init := rec[..|rec| - 1];
    if j < |FieldsTagged(init, tag)| {
      i := FieldsTaggedFrom(init, tag, j);
    } else {
      i := |rec| - 1;
    }
  }

  lemma {:induction false} NotationsOfSource(fields: seq<Datafield>, x: string) returns (j: nat)
    requires x in NotationsOf(fields)
    ensures j < |fields| && x in FieldNotations(fields[j])
  {
    var init := fields[..|fields| - 1];
    assert NotationsOf(fields) == NotationsOf(init) + FieldNotations(fields[|fields| - 1]);
    if x in NotationsOf(init) {
      j := NotationsOfSource(init, x);
    } else {
      j := |fields| - 1;
    }
  }
}
