/**
 The rows of the serialiser's test table (header_test.go), each proved
 against the model. Expected blocks are written line by line; their
 concatenation is the row's expected string. For each row, a listing lemma
 shows which names are emitted and in what order, a block lemma computes the
 lines of that listing, and the row lemma puts the two together.
 */
module HeaderVectors {
  import opened Strings
  import opened HeaderOrder
  import opened Header

  /** An empty header writes nothing. */
  lemma EmptyHeader(h: Header)
    requires h == map[]
    ensures WriteSubset(h, {}) == ""
  {
  }

  /** When every stored name is excluded, nothing is written (the header of
      the `ExcludedName` row, with all three names excluded). */
  lemma AllExcluded(h: Header, exclude: set<string>)
    requires h == ExcludedNameHeader
    requires exclude == {"Content-Length", "Expires", "Content-Encoding"}
    ensures WriteSubset(h, exclude) == ""
  {
  }

  /** The stored header of the `TwoNamesSorted` row. */
  const TwoNamesSortedHeader: Header := map["Content-Type" := ["text/html; charset=UTF-8"], "Content-Length" := ["0"]]

  /** The names that row emits, in emission order. */
  const TwoNamesSortedNames: seq<string> := ["Content-Length", "Content-Type"]

  lemma TwoNamesSortedCandidates(h: Header)
    requires h == TwoNamesSortedHeader
    ensures forall n :: n in TwoNamesSortedNames <==> n in h && n !in {} && n != OrderKey
  {
  }

  lemma TwoNamesSortedOrdered0()
    ensures Less("Content-Length", "Content-Type")
  {
    LessSharedPrefix("Content-", "Length", "Type");
    assert "Content-" + "Length" == "Content-Length" && "Content-" + "Type" == "Content-Type";
  }

  lemma TwoNamesSortedAdjacent(order: seq<string>)
    requires order == []
    ensures forall i :: 0 <= i < |["Content-Length", "Content-Type"]| - 1 ==> Before(order, ["Content-Length", "Content-Type"][i], ["Content-Length", "Content-Type"][i + 1])
  {
    forall i | 0 <= i < 1
      ensures Before(order, ["Content-Length", "Content-Type"][i], ["Content-Length", "Content-Type"][i + 1])
    {
      TwoNamesSortedOrdered0();
      assert i == 0;
    }
  }

  lemma TwoNamesSortedListing(h: Header)
    requires h == TwoNamesSortedHeader
    ensures SortedListing(h, {}, TwoNamesSortedNames)
  {
    assert OrderList(h) == [];
    TwoNamesSortedCandidates(h);
    TwoNamesSortedAdjacent(OrderList(h));
  }

  lemma TwoNamesSortedValues0()
    ensures Render(Expand("Content-Length", ["0"])) == "Content-Length: 0\r\n"
  {
    assert [] + ["0"] == ["0"];
    RenderExpandSnoc("Content-Length", [], "0");
    LineText0();
  }

  lemma TwoNamesSortedStep0(h: Header)
    requires "Content-Length" in h
    requires h["Content-Length"] == ["0"]
    ensures Render(Fields(h, ["Content-Length"])) == "Content-Length: 0\r\n"
  {
    assert [] + ["Content-Length"] == ["Content-Length"];
    RenderFieldsSnoc(h, [], "Content-Length");
    TwoNamesSortedValues0();
  }

  lemma TwoNamesSortedValues1()
    ensures Render(Expand("Content-Type", ["text/html; charset=UTF-8"])) == ("Content-Type: " + "text/html; charset=UTF-8" + "\r\n")
  {
    assert [] + ["text/html; charset=UTF-8"] == ["text/html; charset=UTF-8"];
    RenderExpandSnoc("Content-Type", [], "text/html; charset=UTF-8");
    LineText1();
  }

  lemma TwoNamesSortedStep1(h: Header)
    requires "Content-Type" in h
    requires h["Content-Type"] == ["text/html; charset=UTF-8"]
    ensures Render(Fields(h, ["Content-Length", "Content-Type"])) == Render(Fields(h, ["Content-Length"])) + ("Content-Type: " + "text/html; charset=UTF-8" + "\r\n")
  {
    assert ["Content-Length"] + ["Content-Type"] == ["Content-Length", "Content-Type"];
    RenderFieldsSnoc(h, ["Content-Length"], "Content-Type");
    TwoNamesSortedValues1();
  }

  lemma TwoNamesSortedBlock(h: Header)
    requires h == TwoNamesSortedHeader
    ensures Render(Fields(h, TwoNamesSortedNames))
            == "Content-Length: 0\r\n"
              + ("Content-Type: " + "text/html; charset=UTF-8" + "\r\n")
  {
    TwoNamesSortedStep0(h);
    TwoNamesSortedStep1(h);
  }

  /** Two names come out byte-wise sorted, whatever order the literal lists them in. */
  lemma TwoNamesSorted(h: Header)
    requires h == TwoNamesSortedHeader
    ensures WriteSubset(h, {})
            == "Content-Length: 0\r\n"
              + ("Content-Type: " + "text/html; charset=UTF-8" + "\r\n")
  {
    TwoNamesSortedListing(h);
    TwoNamesSortedBlock(h);
    WriteSubsetOfSortedNames(h, {}, TwoNamesSortedNames);
  }

  /** The stored header of the `ValuePerLine` row. */
  const ValuePerLineHeader: Header := map["Content-Length" := ["0", "1", "2"]]

  /** The names that row emits, in emission order. */
  const ValuePerLineNames: seq<string> := ["Content-Length"]

  lemma ValuePerLineCandidates(h: Header)
    requires h == ValuePerLineHeader
    ensures forall n :: n in ValuePerLineNames <==> n in h && n !in {} && n != OrderKey
  {
  }

  lemma ValuePerLineListing(h: Header)
    requires h == ValuePerLineHeader
    ensures SortedListing(h, {}, ValuePerLineNames)
  {
    assert OrderList(h) == [];
    ValuePerLineCandidates(h);
  }

  lemma ValuePerLineValues0()
    ensures Render(Expand("Content-Length", ["0", "1", "2"])) == "Content-Length: 0\r\n" + "Content-Length: 1\r\n" + "Content-Length: 2\r\n"
  {
    assert [] + ["0"] == ["0"];
    RenderExpandSnoc("Content-Length", [], "0");
    LineText0();
    assert ["0"] + ["1"] == ["0", "1"];
    RenderExpandSnoc("Content-Length", ["0"], "1");
    LineText2();
    assert ["0", "1"] + ["2"] == ["0", "1", "2"];
    RenderExpandSnoc("Content-Length", ["0", "1"], "2");
    LineText3();
  }

  lemma ValuePerLineStep0(h: Header)
    requires "Content-Length" in h
    requires h["Content-Length"] == ["0", "1", "2"]
    ensures Render(Fields(h, ["Content-Length"])) == "Content-Length: 0\r\n" + "Content-Length: 1\r\n" + "Content-Length: 2\r\n"
  {
    assert [] + ["Content-Length"] == ["Content-Length"];
    RenderFieldsSnoc(h, [], "Content-Length");
    ValuePerLineValues0();
  }

  lemma ValuePerLineBlock(h: Header)
    requires h == ValuePerLineHeader
    ensures Render(Fields(h, ValuePerLineNames))
            == "Content-Length: 0\r\n"
              + "Content-Length: 1\r\n"
              + "Content-Length: 2\r\n"
  {
    ValuePerLineStep0(h);
  }

  /** A name with several values writes one line per value, in stored order. */
  lemma ValuePerLine(h: Header)
    requires h == ValuePerLineHeader
    ensures WriteSubset(h, {})
            == "Content-Length: 0\r\n"
              + "Content-Length: 1\r\n"
              + "Content-Length: 2\r\n"
  {
    ValuePerLineListing(h);
    ValuePerLineBlock(h);
    WriteSubsetOfSortedNames(h, {}, ValuePerLineNames);
  }

  /** The stored header of the `ExcludedName` row. */
  const ExcludedNameHeader: Header := map["Expires" := ["-1"], "Content-Length" := ["0"], "Content-Encoding" := ["gzip"]]

  /** The names that row emits, in emission order. */
  const ExcludedNameNames: seq<string> := ["Content-Encoding", "Expires"]

  lemma ExcludedNameCandidates(h: Header)
    requires h == ExcludedNameHeader
    ensures forall n :: n in ExcludedNameNames <==> n in h && n !in {"Content-Length"} && n != OrderKey
  {
  }

  lemma ExcludedNameOrdered0()
    ensures Less("Content-Encoding", "Expires")
  {
  }

  lemma ExcludedNameAdjacent(order: seq<string>)
    requires order == []
    ensures forall i :: 0 <= i < |["Content-Encoding", "Expires"]| - 1 ==> Before(order, ["Content-Encoding", "Expires"][i], ["Content-Encoding", "Expires"][i + 1])
  {
    forall i | 0 <= i < 1
      ensures Before(order, ["Content-Encoding", "Expires"][i], ["Content-Encoding", "Expires"][i + 1])
    {
      ExcludedNameOrdered0();
      assert i == 0;
    }
  }

  lemma ExcludedNameListing(h: Header)
    requires h == ExcludedNameHeader
    ensures SortedListing(h, {"Content-Length"}, ExcludedNameNames)
  {
    assert OrderList(h) == [];
    ExcludedNameCandidates(h);
    ExcludedNameAdjacent(OrderList(h));
  }

  lemma ExcludedNameValues0()
    ensures Render(Expand("Content-Encoding", ["gzip"])) == "Content-Encoding: gzip\r\n"
  {
    assert [] + ["gzip"] == ["gzip"];
    RenderExpandSnoc("Content-Encoding", [], "gzip");
    LineText4();
  }

  lemma ExcludedNameStep0(h: Header)
    requires "Content-Encoding" in h
    requires h["Content-Encoding"] == ["gzip"]
    ensures Render(Fields(h, ["Content-Encoding"])) == "Content-Encoding: gzip\r\n"
  {
    assert [] + ["Content-Encoding"] == ["Content-Encoding"];
    RenderFieldsSnoc(h, [], "Content-Encoding");
    ExcludedNameValues0();
  }

  lemma ExcludedNameValues1()
    ensures Render(Expand("Expires", ["-1"])) == "Expires: -1\r\n"
  {
    assert [] + ["-1"] == ["-1"];
    RenderExpandSnoc("Expires", [], "-1");
    LineText5();
  }

  lemma ExcludedNameStep1(h: Header)
    requires "Expires" in h
    requires h["Expires"] == ["-1"]
    ensures Render(Fields(h, ["Content-Encoding", "Expires"])) == Render(Fields(h, ["Content-Encoding"])) + "Expires: -1\r\n"
  {
    assert ["Content-Encoding"] + ["Expires"] == ["Content-Encoding", "Expires"];
    RenderFieldsSnoc(h, ["Content-Encoding"], "Expires");
    ExcludedNameValues1();
  }

  lemma ExcludedNameBlock(h: Header)
    requires h == ExcludedNameHeader
    ensures Render(Fields(h, ExcludedNameNames))
            == "Content-Encoding: gzip\r\n"
              + "Expires: -1\r\n"
  {
    ExcludedNameStep0(h);
    ExcludedNameStep1(h);
  }

  /** An excluded name is dropped; the others keep their sorted order. */
  lemma ExcludedName(h: Header)
    requires h == ExcludedNameHeader
    ensures WriteSubset(h, {"Content-Length"})
            == "Content-Encoding: gzip\r\n"
              + "Expires: -1\r\n"
  {
    ExcludedNameListing(h);
    ExcludedNameBlock(h);
    WriteSubsetOfSortedNames(h, {"Content-Length"}, ExcludedNameNames);
  }

  /** The stored header of the `ExcludedValues` row. */
  const ExcludedValuesHeader: Header := map["Expires" := ["-1"], "Content-Length" := ["0", "1", "2"], "Content-Encoding" := ["gzip"]]

  /** The names that row emits, in emission order. */
  const ExcludedValuesNames: seq<string> := ["Content-Encoding", "Expires"]

  lemma ExcludedValuesCandidates(h: Header)
    requires h == ExcludedValuesHeader
    ensures forall n :: n in ExcludedValuesNames <==> n in h && n !in {"Content-Length"} && n != OrderKey
  {
  }

  lemma ExcludedValuesOrdered0()
    ensures Less("Content-Encoding", "Expires")
  {
  }

  lemma ExcludedValuesAdjacent(order: seq<string>)
    requires order == []
    ensures forall i :: 0 <= i < |["Content-Encoding", "Expires"]| - 1 ==> Before(order, ["Content-Encoding", "Expires"][i], ["Content-Encoding", "Expires"][i + 1])
  {
    forall i | 0 <= i < 1
      ensures Before(order, ["Content-Encoding", "Expires"][i], ["Content-Encoding", "Expires"][i + 1])
    {
      ExcludedValuesOrdered0();
      assert i == 0;
    }
  }

  lemma ExcludedValuesListing(h: Header)
    requires h == ExcludedValuesHeader
    ensures SortedListing(h, {"Content-Length"}, ExcludedValuesNames)
  {
    assert OrderList(h) == [];
    ExcludedValuesCandidates(h);
    ExcludedValuesAdjacent(OrderList(h));
  }

  lemma ExcludedValuesValues0()
    ensures Render(Expand("Content-Encoding", ["gzip"])) == "Content-Encoding: gzip\r\n"
  {
    assert [] + ["gzip"] == ["gzip"];
    RenderExpandSnoc("Content-Encoding", [], "gzip");
    LineText4();
  }

  lemma ExcludedValuesStep0(h: Header)
    requires "Content-Encoding" in h
    requires h["Content-Encoding"] == ["gzip"]
    ensures Render(Fields(h, ["Content-Encoding"])) == "Content-Encoding: gzip\r\n"
  {
    assert [] + ["Content-Encoding"] == ["Content-Encoding"];
    RenderFieldsSnoc(h, [], "Content-Encoding");
    ExcludedValuesValues0();
  }

  lemma ExcludedValuesValues1()
    ensures Render(Expand("Expires", ["-1"])) == "Expires: -1\r\n"
  {
    assert [] + ["-1"] == ["-1"];
    RenderExpandSnoc("Expires", [], "-1");
    LineText5();
  }

  lemma ExcludedValuesStep1(h: Header)
    requires "Expires" in h
    requires h["Expires"] == ["-1"]
    ensures Render(Fields(h, ["Content-Encoding", "Expires"])) == Render(Fields(h, ["Content-Encoding"])) + "Expires: -1\r\n"
  {
    assert ["Content-Encoding"] + ["Expires"] == ["Content-Encoding", "Expires"];
    RenderFieldsSnoc(h, ["Content-Encoding"], "Expires");
    ExcludedValuesValues1();
  }

  lemma ExcludedValuesBlock(h: Header)
    requires h == ExcludedValuesHeader
    ensures Render(Fields(h, ExcludedValuesNames))
            == "Content-Encoding: gzip\r\n"
              + "Expires: -1\r\n"
  {
    ExcludedValuesStep0(h);
    ExcludedValuesStep1(h);
  }

  /** An excluded name is dropped with all of its values. */
  lemma ExcludedValues(h: Header)
    requires h == ExcludedValuesHeader
    ensures WriteSubset(h, {"Content-Length"})
            == "Content-Encoding: gzip\r\n"
              + "Expires: -1\r\n"
  {
    ExcludedValuesListing(h);
    ExcludedValuesBlock(h);
    WriteSubsetOfSortedNames(h, {"Content-Length"}, ExcludedValuesNames);
  }

  /** The stored header of the `EmptyValues` row. */
  const EmptyValuesHeader: Header := map["Nil" := [], "Empty" := [], "Blank" := [""], "Double-Blank" := ["", ""]]

  /** The names that row emits, in emission order. */
  const EmptyValuesNames: seq<string> := ["Blank", "Double-Blank", "Empty", "Nil"]

  lemma EmptyValuesCandidates(h: Header)
    requires h == EmptyValuesHeader
    ensures forall n :: n in EmptyValuesNames <==> n in h && n !in {} && n != OrderKey
  {
  }

  lemma EmptyValuesOrdered0()
    ensures Less("Blank", "Double-Blank")
  {
  }

  lemma EmptyValuesOrdered1()
    ensures Less("Double-Blank", "Empty")
  {
  }

  lemma EmptyValuesOrdered2()
    ensures Less("Empty", "Nil")
  {
  }

  lemma EmptyValuesAdjacent(order: seq<string>)
    requires order == []
    ensures forall i :: 0 <= i < |["Blank", "Double-Blank", "Empty", "Nil"]| - 1 ==> Before(order, ["Blank", "Double-Blank", "Empty", "Nil"][i], ["Blank", "Double-Blank", "Empty", "Nil"][i + 1])
  {
    forall i | 0 <= i < 3
      ensures Before(order, ["Blank", "Double-Blank", "Empty", "Nil"][i], ["Blank", "Double-Blank", "Empty", "Nil"][i + 1])
    {
      if i == 0 {
        EmptyValuesOrdered0();
      } else if i == 1 {
        EmptyValuesOrdered1();
      } else {
        EmptyValuesOrdered2();
      }
    }
  }

  lemma EmptyValuesListing(h: Header)
    requires h == EmptyValuesHeader
    ensures SortedListing(h, {}, EmptyValuesNames)
  {
    assert OrderList(h) == [];
    EmptyValuesCandidates(h);
    EmptyValuesAdjacent(OrderList(h));
  }

  lemma EmptyValuesValues0()
    ensures Render(Expand("Blank", [""])) == "Blank: \r\n"
  {
    assert [] + [""] == [""];
    RenderExpandSnoc("Blank", [], "");
    LineText6();
  }

  lemma EmptyValuesStep0(h: Header)
    requires "Blank" in h
    requires h["Blank"] == [""]
    ensures Render(Fields(h, ["Blank"])) == "Blank: \r\n"
  {
    assert [] + ["Blank"] == ["Blank"];
    RenderFieldsSnoc(h, [], "Blank");
    EmptyValuesValues0();
  }

  lemma EmptyValuesValues1()
    ensures Render(Expand("Double-Blank", ["", ""])) == "Double-Blank: \r\n" + "Double-Blank: \r\n"
  {
    assert [] + [""] == [""];
    RenderExpandSnoc("Double-Blank", [], "");
    LineText7();
    assert [""] + [""] == ["", ""];
    RenderExpandSnoc("Double-Blank", [""], "");
    LineText7();
  }

  lemma EmptyValuesStep1(h: Header)
    requires "Double-Blank" in h
    requires h["Double-Blank"] == ["", ""]
    ensures Render(Fields(h, ["Blank", "Double-Blank"])) == Render(Fields(h, ["Blank"])) + "Double-Blank: \r\n" + "Double-Blank: \r\n"
  {
    assert ["Blank"] + ["Double-Blank"] == ["Blank", "Double-Blank"];
    RenderFieldsSnoc(h, ["Blank"], "Double-Blank");
    EmptyValuesValues1();
  }

  lemma EmptyValuesStep2(h: Header)
    requires "Empty" in h
    requires h["Empty"] == []
    ensures Render(Fields(h, ["Blank", "Double-Blank", "Empty"])) == Render(Fields(h, ["Blank", "Double-Blank"]))
  {
    assert ["Blank", "Double-Blank"] + ["Empty"] == ["Blank", "Double-Blank", "Empty"];
    RenderFieldsSnoc(h, ["Blank", "Double-Blank"], "Empty");
  }

  lemma EmptyValuesStep3(h: Header)
    requires "Nil" in h
    requires h["Nil"] == []
    ensures Render(Fields(h, ["Blank", "Double-Blank", "Empty", "Nil"])) == Render(Fields(h, ["Blank", "Double-Blank", "Empty"]))
  {
    assert ["Blank", "Double-Blank", "Empty"] + ["Nil"] == ["Blank", "Double-Blank", "Empty", "Nil"];
    RenderFieldsSnoc(h, ["Blank", "Double-Blank", "Empty"], "Nil");
  }

  lemma EmptyValuesBlock(h: Header)
    requires h == EmptyValuesHeader
    ensures Render(Fields(h, EmptyValuesNames))
            == "Blank: \r\n"
              + "Double-Blank: \r\n"
              + "Double-Blank: \r\n"
  {
    EmptyValuesStep0(h);
    EmptyValuesStep1(h);
    EmptyValuesStep2(h);
    EmptyValuesStep3(h);
  }

  /** Empty value lists write nothing; each empty value writes its own line. */
  lemma EmptyValues(h: Header)
    requires h == EmptyValuesHeader
    ensures WriteSubset(h, {})
            == "Blank: \r\n"
              + "Double-Blank: \r\n"
              + "Double-Blank: \r\n"
  {
    EmptyValuesListing(h);
    EmptyValuesBlock(h);
    WriteSubsetOfSortedNames(h, {}, EmptyValuesNames);
  }

  /** The stored header of the `NineNames` row. */
  const NineNamesHeader: Header := map["k1" := ["1a", "1b"], "k2" := ["2a", "2b"], "k3" := ["3a", "3b"], "k4" := ["4a", "4b"], "k5" := ["5a", "5b"], "k6" := ["6a", "6b"], "k7" := ["7a", "7b"], "k8" := ["8a", "8b"], "k9" := ["9a", "9b"]]

  /** The names that row emits, in emission order. */
  const NineNamesNames: seq<string> := ["k1", "k2", "k3", "k4", "k6", "k7", "k8", "k9"]

  lemma NineNamesCandidates(h: Header)
    requires h == NineNamesHeader
    ensures forall n :: n in NineNamesNames <==> n in h && n !in {"k5"} && n != OrderKey
  {
  }

  lemma NineNamesOrdered0()
    ensures Less("k1", "k2")
  {
  }

  lemma NineNamesOrdered1()
    ensures Less("k2", "k3")
  {
  }

  lemma NineNamesOrdered2()
    ensures Less("k3", "k4")
  {
  }

  lemma NineNamesOrdered3()
    ensures Less("k4", "k6")
  {
  }

  lemma NineNamesOrdered4()
    ensures Less("k6", "k7")
  {
  }

  lemma NineNamesOrdered5()
    ensures Less("k7", "k8")
  {
  }

  lemma NineNamesOrdered6()
    ensures Less("k8", "k9")
  {
  }

  lemma NineNamesAdjacent(order: seq<string>)
    requires order == []
    ensures forall i :: 0 <= i < |["k1", "k2", "k3", "k4", "k6", "k7", "k8", "k9"]| - 1 ==> Before(order, ["k1", "k2", "k3", "k4", "k6", "k7", "k8", "k9"][i], ["k1", "k2", "k3", "k4", "k6", "k7", "k8", "k9"][i + 1])
  {
    forall i | 0 <= i < 7
      ensures Before(order, ["k1", "k2", "k3", "k4", "k6", "k7", "k8", "k9"][i], ["k1", "k2", "k3", "k4", "k6", "k7", "k8", "k9"][i + 1])
    {
      if i == 0 {
        NineNamesOrdered0();
      } else if i == 1 {
        NineNamesOrdered1();
      } else if i == 2 {
        NineNamesOrdered2();
      } else if i == 3 {
        NineNamesOrdered3();
      } else if i == 4 {
        NineNamesOrdered4();
      } else if i == 5 {
        NineNamesOrdered5();
      } else {
        NineNamesOrdered6();
      }
    }
  }

  lemma NineNamesListing(h: Header)
    requires h == NineNamesHeader
    ensures SortedListing(h, {"k5"}, NineNamesNames)
  {
    assert OrderList(h) == [];
    NineNamesCandidates(h);
    NineNamesAdjacent(OrderList(h));
  }

  lemma NineNamesValues0()
    ensures Render(Expand("k1", ["1a", "1b"])) == "k1: 1a\r\n" + "k1: 1b\r\n"
  {
    assert [] + ["1a"] == ["1a"];
    RenderExpandSnoc("k1", [], "1a");
    LineText8();
    assert ["1a"] + ["1b"] == ["1a", "1b"];
    RenderExpandSnoc("k1", ["1a"], "1b");
    LineText9();
  }

  lemma NineNamesStep0(h: Header)
    requires "k1" in h
    requires h["k1"] == ["1a", "1b"]
    ensures Render(Fields(h, ["k1"])) == "k1: 1a\r\n" + "k1: 1b\r\n"
  {
    assert [] + ["k1"] == ["k1"];
    RenderFieldsSnoc(h, [], "k1");
    NineNamesValues0();
  }

  lemma NineNamesValues1()
    ensures Render(Expand("k2", ["2a", "2b"])) == "k2: 2a\r\n" + "k2: 2b\r\n"
  {
    assert [] + ["2a"] == ["2a"];
    RenderExpandSnoc("k2", [], "2a");
    LineText10();
    assert ["2a"] + ["2b"] == ["2a", "2b"];
    RenderExpandSnoc("k2", ["2a"], "2b");
    LineText11();
  }

  lemma NineNamesStep1(h: Header)
    requires "k2" in h
    requires h["k2"] == ["2a", "2b"]
    ensures Render(Fields(h, ["k1", "k2"])) == Render(Fields(h, ["k1"])) + "k2: 2a\r\n" + "k2: 2b\r\n"
  {
    assert ["k1"] + ["k2"] == ["k1", "k2"];
    RenderFieldsSnoc(h, ["k1"], "k2");
    NineNamesValues1();
  }

  lemma NineNamesValues2()
    ensures Render(Expand("k3", ["3a", "3b"])) == "k3: 3a\r\n" + "k3: 3b\r\n"
  {
    assert [] + ["3a"] == ["3a"];
    RenderExpandSnoc("k3", [], "3a");
    LineText12();
    assert ["3a"] + ["3b"] == ["3a", "3b"];
    RenderExpandSnoc("k3", ["3a"], "3b");
    LineText13();
  }

  lemma NineNamesStep2(h: Header)
    requires "k3" in h
    requires h["k3"] == ["3a", "3b"]
    ensures Render(Fields(h, ["k1", "k2", "k3"])) == Render(Fields(h, ["k1", "k2"])) + "k3: 3a\r\n" + "k3: 3b\r\n"
  {
    assert ["k1", "k2"] + ["k3"] == ["k1", "k2", "k3"];
    RenderFieldsSnoc(h, ["k1", "k2"], "k3");
    NineNamesValues2();
  }

  lemma NineNamesValues3()
    ensures Render(Expand("k4", ["4a", "4b"])) == "k4: 4a\r\n" + "k4: 4b\r\n"
  {
    assert [] + ["4a"] == ["4a"];
    RenderExpandSnoc("k4", [], "4a");
    LineText14();
    assert ["4a"] + ["4b"] == ["4a", "4b"];
    RenderExpandSnoc("k4", ["4a"], "4b");
    LineText15();
  }

  lemma NineNamesStep3(h: Header)
    requires "k4" in h
    requires h["k4"] == ["4a", "4b"]
    ensures Render(Fields(h, ["k1", "k2", "k3", "k4"])) == Render(Fields(h, ["k1", "k2", "k3"])) + "k4: 4a\r\n" + "k4: 4b\r\n"
  {
    assert ["k1", "k2", "k3"] + ["k4"] == ["k1", "k2", "k3", "k4"];
    RenderFieldsSnoc(h, ["k1", "k2", "k3"], "k4");
    NineNamesValues3();
  }

  lemma NineNamesValues4()
    ensures Render(Expand("k6", ["6a", "6b"])) == "k6: 6a\r\n" + "k6: 6b\r\n"
  {
    assert [] + ["6a"] == ["6a"];
    RenderExpandSnoc("k6", [], "6a");
    LineText16();
    assert ["6a"] + ["6b"] == ["6a", "6b"];
    RenderExpandSnoc("k6", ["6a"], "6b");
    LineText17();
  }

  lemma NineNamesStep4(h: Header)
    requires "k6" in h
    requires h["k6"] == ["6a", "6b"]
    ensures Render(Fields(h, ["k1", "k2", "k3", "k4", "k6"])) == Render(Fields(h, ["k1", "k2", "k3", "k4"])) + "k6: 6a\r\n" + "k6: 6b\r\n"
  {
    assert ["k1", "k2", "k3", "k4"] + ["k6"] == ["k1", "k2", "k3", "k4", "k6"];
    RenderFieldsSnoc(h, ["k1", "k2", "k3", "k4"], "k6");
    NineNamesValues4();
  }

  lemma NineNamesValues5()
    ensures Render(Expand("k7", ["7a", "7b"])) == "k7: 7a\r\n" + "k7: 7b\r\n"
  {
    assert [] + ["7a"] == ["7a"];
    RenderExpandSnoc("k7", [], "7a");
    LineText18();
    assert ["7a"] + ["7b"] == ["7a", "7b"];
    RenderExpandSnoc("k7", ["7a"], "7b");
    LineText19();
  }

  lemma NineNamesStep5(h: Header)
    requires "k7" in h
    requires h["k7"] == ["7a", "7b"]
    ensures Render(Fields(h, ["k1", "k2", "k3", "k4", "k6", "k7"])) == Render(Fields(h, ["k1", "k2", "k3", "k4", "k6"])) + "k7: 7a\r\n" + "k7: 7b\r\n"
  {
    assert ["k1", "k2", "k3", "k4", "k6"] + ["k7"] == ["k1", "k2", "k3", "k4", "k6", "k7"];
    RenderFieldsSnoc(h, ["k1", "k2", "k3", "k4", "k6"], "k7");
    NineNamesValues5();
  }

  lemma NineNamesValues6()
    ensures Render(Expand("k8", ["8a", "8b"])) == "k8: 8a\r\n" + "k8: 8b\r\n"
  {
    assert [] + ["8a"] == ["8a"];
    RenderExpandSnoc("k8", [], "8a");
    LineText20();
    assert ["8a"] + ["8b"] == ["8a", "8b"];
    RenderExpandSnoc("k8", ["8a"], "8b");
    LineText21();
  }

  lemma NineNamesStep6(h: Header)
    requires "k8" in h
    requires h["k8"] == ["8a", "8b"]
    ensures Render(Fields(h, ["k1", "k2", "k3", "k4", "k6", "k7", "k8"])) == Render(Fields(h, ["k1", "k2", "k3", "k4", "k6", "k7"])) + "k8: 8a\r\n" + "k8: 8b\r\n"
  {
    assert ["k1", "k2", "k3", "k4", "k6", "k7"] + ["k8"] == ["k1", "k2", "k3", "k4", "k6", "k7", "k8"];
    RenderFieldsSnoc(h, ["k1", "k2", "k3", "k4", "k6", "k7"], "k8");
    NineNamesValues6();
  }

  lemma NineNamesValues7()
    ensures Render(Expand("k9", ["9a", "9b"])) == "k9: 9a\r\n" + "k9: 9b\r\n"
  {
    assert [] + ["9a"] == ["9a"];
    RenderExpandSnoc("k9", [], "9a");
    LineText22();
    assert ["9a"] + ["9b"] == ["9a", "9b"];
    RenderExpandSnoc("k9", ["9a"], "9b");
    LineText23();
  }

  lemma NineNamesStep7(h: Header)
    requires "k9" in h
    requires h["k9"] == ["9a", "9b"]
    ensures Render(Fields(h, ["k1", "k2", "k3", "k4", "k6", "k7", "k8", "k9"])) == Render(Fields(h, ["k1", "k2", "k3", "k4", "k6", "k7", "k8"])) + "k9: 9a\r\n" + "k9: 9b\r\n"
  {
    assert ["k1", "k2", "k3", "k4", "k6", "k7", "k8"] + ["k9"] == ["k1", "k2", "k3", "k4", "k6", "k7", "k8", "k9"];
    RenderFieldsSnoc(h, ["k1", "k2", "k3", "k4", "k6", "k7", "k8"], "k9");
    NineNamesValues7();
  }

  lemma NineNamesBlock(h: Header)
    requires h == NineNamesHeader
    ensures Render(Fields(h, NineNamesNames))
            == "k1: 1a\r\n"
              + "k1: 1b\r\n"
              + "k2: 2a\r\n"
              + "k2: 2b\r\n"
              + "k3: 3a\r\n"
              + "k3: 3b\r\n"
              + "k4: 4a\r\n"
              + "k4: 4b\r\n"
              + "k6: 6a\r\n"
              + "k6: 6b\r\n"
              + "k7: 7a\r\n"
              + "k7: 7b\r\n"
              + "k8: 8a\r\n"
              + "k8: 8b\r\n"
              + "k9: 9a\r\n"
              + "k9: 9b\r\n"
  {
    NineNamesStep0(h);
    NineNamesStep1(h);
    NineNamesStep2(h);
    NineNamesStep3(h);
    NineNamesStep4(h);
    NineNamesStep5(h);
    NineNamesStep6(h);
    NineNamesStep7(h);
  }

  /** Nine names, one excluded: sorting above the insertion-sort threshold. */
  lemma NineNames(h: Header)
    requires h == NineNamesHeader
    ensures WriteSubset(h, {"k5"})
            == "k1: 1a\r\n"
              + "k1: 1b\r\n"
              + "k2: 2a\r\n"
              + "k2: 2b\r\n"
              + "k3: 3a\r\n"
              + "k3: 3b\r\n"
              + "k4: 4a\r\n"
              + "k4: 4b\r\n"
              + "k6: 6a\r\n"
              + "k6: 6b\r\n"
              + "k7: 7a\r\n"
              + "k7: 7b\r\n"
              + "k8: 8a\r\n"
              + "k8: 8b\r\n"
              + "k9: 9a\r\n"
              + "k9: 9b\r\n"
  {
    NineNamesListing(h);
    NineNamesBlock(h);
    WriteSubsetOfSortedNames(h, {"k5"}, NineNamesNames);
  }

  /** The stored header of the `HeaderOrderList` row. */
  const HeaderOrderListHeader: Header := map["a" := ["2"], "b" := ["3"], "e" := ["1"], "c" := ["5"], "d" := ["4"], OrderKey := ["e", "a", "b", "d", "c"]]

  /** The names that row emits, in emission order. */
  const HeaderOrderListNames: seq<string> := ["e", "a", "b", "d", "c"]

  lemma HeaderOrderListRank0(order: seq<string>)
    requires order == ["e", "a", "b", "d", "c"]
    ensures Rank(order, "e") == 0
  {
    assert EqualFold("e", "e");
    RankOf(order, "e", 0);
  }

  lemma HeaderOrderListRank1(order: seq<string>)
    requires order == ["e", "a", "b", "d", "c"]
    ensures Rank(order, "a") == 1
  {
    assert EqualFold("a", "a");
    forall j | 0 <= j < 1
      ensures !EqualFold(order[j], "a")
    {
      assert !EqualFold("e", "a");
    }
    RankOf(order, "a", 1);
  }

  lemma HeaderOrderListRank2(order: seq<string>)
    requires order == ["e", "a", "b", "d", "c"]
    ensures Rank(order, "b") == 2
  {
    assert EqualFold("b", "b");
    forall j | 0 <= j < 2
      ensures !EqualFold(order[j], "b")
    {
      if j == 0 {
        assert !EqualFold("e", "b");
      } else {
        assert !EqualFold("a", "b");
      }
    }
    RankOf(order, "b", 2);
  }

  lemma HeaderOrderListRank3(order: seq<string>)
    requires order == ["e", "a", "b", "d", "c"]
    ensures Rank(order, "d") == 3
  {
    assert EqualFold("d", "d");
    forall j | 0 <= j < 3
      ensures !EqualFold(order[j], "d")
    {
      if j == 0 {
        assert !EqualFold("e", "d");
      } else if j == 1 {
        assert !EqualFold("a", "d");
      } else {
        assert !EqualFold("b", "d");
      }
    }
    RankOf(order, "d", 3);
  }

  lemma HeaderOrderListRank4(order: seq<string>)
    requires order == ["e", "a", "b", "d", "c"]
    ensures Rank(order, "c") == 4
  {
    assert EqualFold("c", "c");
    forall j | 0 <= j < 4
      ensures !EqualFold(order[j], "c")
    {
      if j == 0 {
        assert !EqualFold("e", "c");
      } else if j == 1 {
        assert !EqualFold("a", "c");
      } else if j == 2 {
        assert !EqualFold("b", "c");
      } else {
        assert !EqualFold("d", "c");
      }
    }
    RankOf(order, "c", 4);
  }

  lemma HeaderOrderListCandidates(h: Header)
    requires h == HeaderOrderListHeader
    ensures forall n :: n in HeaderOrderListNames <==> n in h && n !in {} && n != OrderKey
  {
  }

  lemma HeaderOrderListAdjacent(order: seq<string>)
    requires order == ["e", "a", "b", "d", "c"]
    ensures forall i :: 0 <= i < |["e", "a", "b", "d", "c"]| - 1 ==> Before(order, ["e", "a", "b", "d", "c"][i], ["e", "a", "b", "d", "c"][i + 1])
  {
    forall i | 0 <= i < 4
      ensures Before(order, ["e", "a", "b", "d", "c"][i], ["e", "a", "b", "d", "c"][i + 1])
    {
      if i == 0 {
        HeaderOrderListRank0(order);
        HeaderOrderListRank1(order);
      } else if i == 1 {
        HeaderOrderListRank1(order);
        HeaderOrderListRank2(order);
      } else if i == 2 {
        HeaderOrderListRank2(order);
        HeaderOrderListRank3(order);
      } else {
        HeaderOrderListRank3(order);
        HeaderOrderListRank4(order);
      }
    }
  }

  lemma HeaderOrderListListing(h: Header)
    requires h == HeaderOrderListHeader
    ensures SortedListing(h, {}, HeaderOrderListNames)
  {
    assert OrderList(h) == ["e", "a", "b", "d", "c"];
    HeaderOrderListCandidates(h);
    HeaderOrderListAdjacent(OrderList(h));
  }

  lemma HeaderOrderListValues0()
    ensures Render(Expand("e", ["1"])) == "e: 1\r\n"
  {
    assert [] + ["1"] == ["1"];
    RenderExpandSnoc("e", [], "1");
    LineText24();
  }

  lemma HeaderOrderListStep0(h: Header)
    requires "e" in h
    requires h["e"] == ["1"]
    ensures Render(Fields(h, ["e"])) == "e: 1\r\n"
  {
    assert [] + ["e"] == ["e"];
    RenderFieldsSnoc(h, [], "e");
    HeaderOrderListValues0();
  }

  lemma HeaderOrderListValues1()
    ensures Render(Expand("a", ["2"])) == "a: 2\r\n"
  {
    assert [] + ["2"] == ["2"];
    RenderExpandSnoc("a", [], "2");
    LineText25();
  }

  lemma HeaderOrderListStep1(h: Header)
    requires "a" in h
    requires h["a"] == ["2"]
    ensures Render(Fields(h, ["e", "a"])) == Render(Fields(h, ["e"])) + "a: 2\r\n"
  {
    assert ["e"] + ["a"] == ["e", "a"];
    RenderFieldsSnoc(h, ["e"], "a");
    HeaderOrderListValues1();
  }

  lemma HeaderOrderListValues2()
    ensures Render(Expand("b", ["3"])) == "b: 3\r\n"
  {
    assert [] + ["3"] == ["3"];
    RenderExpandSnoc("b", [], "3");
    LineText26();
  }

  lemma HeaderOrderListStep2(h: Header)
    requires "b" in h
    requires h["b"] == ["3"]
    ensures Render(Fields(h, ["e", "a", "b"])) == Render(Fields(h, ["e", "a"])) + "b: 3\r\n"
  {
    assert ["e", "a"] + ["b"] == ["e", "a", "b"];
    RenderFieldsSnoc(h, ["e", "a"], "b");
    HeaderOrderListValues2();
  }

  lemma HeaderOrderListValues3()
    ensures Render(Expand("d", ["4"])) == "d: 4\r\n"
  {
    assert [] + ["4"] == ["4"];
    RenderExpandSnoc("d", [], "4");
    LineText27();
  }

  lemma HeaderOrderListStep3(h: Header)
    requires "d" in h
    requires h["d"] == ["4"]
    ensures Render(Fields(h, ["e", "a", "b", "d"])) == Render(Fields(h, ["e", "a", "b"])) + "d: 4\r\n"
  {
    assert ["e", "a", "b"] + ["d"] == ["e", "a", "b", "d"];
    RenderFieldsSnoc(h, ["e", "a", "b"], "d");
    HeaderOrderListValues3();
  }

  lemma HeaderOrderListValues4()
    ensures Render(Expand("c", ["5"])) == "c: 5\r\n"
  {
    assert [] + ["5"] == ["5"];
    RenderExpandSnoc("c", [], "5");
    LineText28();
  }

  lemma HeaderOrderListStep4(h: Header)
    requires "c" in h
    requires h["c"] == ["5"]
    ensures Render(Fields(h, ["e", "a", "b", "d", "c"])) == Render(Fields(h, ["e", "a", "b", "d"])) + "c: 5\r\n"
  {
    assert ["e", "a", "b", "d"] + ["c"] == ["e", "a", "b", "d", "c"];
    RenderFieldsSnoc(h, ["e", "a", "b", "d"], "c");
    HeaderOrderListValues4();
  }

  lemma HeaderOrderListBlock(h: Header)
    requires h == HeaderOrderListHeader
    ensures Render(Fields(h, HeaderOrderListNames))
            == "e: 1\r\n"
              + "a: 2\r\n"
              + "b: 3\r\n"
              + "d: 4\r\n"
              + "c: 5\r\n"
  {
    HeaderOrderListStep0(h);
    HeaderOrderListStep1(h);
    HeaderOrderListStep2(h);
    HeaderOrderListStep3(h);
    HeaderOrderListStep4(h);
  }

  /** The Header-Order list fixes the emission order; the list itself is not written. */
  lemma HeaderOrderList(h: Header)
    requires h == HeaderOrderListHeader
    ensures WriteSubset(h, {})
            == "e: 1\r\n"
              + "a: 2\r\n"
              + "b: 3\r\n"
              + "d: 4\r\n"
              + "c: 5\r\n"
  {
    HeaderOrderListListing(h);
    HeaderOrderListBlock(h);
    WriteSubsetOfSortedNames(h, {}, HeaderOrderListNames);
  }

  /** The stored header of the `HeaderOrderCaseInsensitive` row. */
  const HeaderOrderCaseInsensitiveHeader: Header := map["MESH-Commerce-Channel" := ["android-app-phone"], "X-acf-sensor-data" := ["3456"], "User-Agent" := ["size/3.1.0.8355 (android-app-phone; Android 10; Build/CPH2185_11_A.28)"], "X-Request-Auth" := ["hawkHeader"], "X-NewRelic-ID" := ["12345"], "Accept-Encoding" := ["gzip"], "Connection" := ["Keep-Alive"], "Content-Type" := ["application/json; charset=UTF-8"], "Accept" := ["application/json"], "x-api-key" := ["ABCDEFGHIJKLMNOPQRSTUVWXYZ"], "Transfer-Encoding" := ["chunked"], "mesh-version" := ["cart=4"], "Host" := ["prod.jdgroupmesh.cloud"], OrderKey := ["x-newrelic-id", "x-api-key", "mesh-commerce-channel", "mesh-version", "user-agent", "x-request-auth", "x-acf-sensor-data", "content-type", "accept", "transfer-encoding", "host", "connection", "accept-encoding"]]

  /** The names that row emits, in emission order. */
  const HeaderOrderCaseInsensitiveNames: seq<string> := ["X-NewRelic-ID", "x-api-key", "MESH-Commerce-Channel", "mesh-version", "User-Agent", "X-Request-Auth", "X-acf-sensor-data", "Content-Type", "Accept", "Transfer-Encoding", "Host", "Connection", "Accept-Encoding"]

  lemma HeaderOrderCaseInsensitiveRank0(order: seq<string>)
    requires order == ["x-newrelic-id", "x-api-key", "mesh-commerce-channel", "mesh-version", "user-agent", "x-request-auth", "x-acf-sensor-data", "content-type", "accept", "transfer-encoding", "host", "connection", "accept-encoding"]
    ensures Rank(order, "X-NewRelic-ID") == 0
  {
    assert EqualFoldFrom("x-newrelic-id", "X-NewRelic-ID", 8);
    RankOf(order, "X-NewRelic-ID", 0);
  }

  lemma HeaderOrderCaseInsensitiveRank1(order: seq<string>)
    requires order == ["x-newrelic-id", "x-api-key", "mesh-commerce-channel", "mesh-version", "user-agent", "x-request-auth", "x-acf-sensor-data", "content-type", "accept", "transfer-encoding", "host", "connection", "accept-encoding"]
    ensures Rank(order, "x-api-key") == 1
  {
    assert EqualFold("x-api-key", "x-api-key");
    forall j | 0 <= j < 1
      ensures !EqualFold(order[j], "x-api-key")
    {
      assert !EqualFold("x-newrelic-id", "x-api-key");
    }
    RankOf(order, "x-api-key", 1);
  }

  lemma HeaderOrderCaseInsensitiveRank2(order: seq<string>)
    requires order == ["x-newrelic-id", "x-api-key", "mesh-commerce-channel", "mesh-version", "user-agent", "x-request-auth", "x-acf-sensor-data", "content-type", "accept", "transfer-encoding", "host", "connection", "accept-encoding"]
    ensures Rank(order, "MESH-Commerce-Channel") == 2
  {
    assert EqualFoldFrom("mesh-commerce-channel", "MESH-Commerce-Channel", 16);
    assert EqualFoldFrom("mesh-commerce-channel", "MESH-Commerce-Channel", 8);
    forall j | 0 <= j < 2
      ensures !EqualFold(order[j], "MESH-Commerce-Channel")
    {
      if j == 0 {
        assert !EqualFold("x-newrelic-id", "MESH-Commerce-Channel");
      } else {
        assert !EqualFold("x-api-key", "MESH-Commerce-Channel");
      }
    }
    RankOf(order, "MESH-Commerce-Channel", 2);
  }

  lemma HeaderOrderCaseInsensitiveRank3(order: seq<string>)
    requires order == ["x-newrelic-id", "x-api-key", "mesh-commerce-channel", "mesh-version", "user-agent", "x-request-auth", "x-acf-sensor-data", "content-type", "accept", "transfer-encoding", "host", "connection", "accept-encoding"]
    ensures Rank(order, "mesh-version") == 3
  {
    assert EqualFold("mesh-version", "mesh-version");
    forall j | 0 <= j < 3
      ensures !EqualFold(order[j], "mesh-version")
    {
      if j == 0 {
        assert !EqualFold("x-newrelic-id", "mesh-version");
      } else if j == 1 {
        assert !EqualFold("x-api-key", "mesh-version");
      } else {
        assert !EqualFold("mesh-commerce-channel", "mesh-version");
      }
    }
    RankOf(order, "mesh-version", 3);
  }

  lemma HeaderOrderCaseInsensitiveRank4(order: seq<string>)
    requires order == ["x-newrelic-id", "x-api-key", "mesh-commerce-channel", "mesh-version", "user-agent", "x-request-auth", "x-acf-sensor-data", "content-type", "accept", "transfer-encoding", "host", "connection", "accept-encoding"]
    ensures Rank(order, "User-Agent") == 4
  {
    assert EqualFold("user-agent", "User-Agent");
    forall j | 0 <= j < 4
      ensures !EqualFold(order[j], "User-Agent")
    {
      if j == 0 {
        assert !EqualFold("x-newrelic-id", "User-Agent");
      } else if j == 1 {
        assert !EqualFold("x-api-key", "User-Agent");
      } else if j == 2 {
        assert !EqualFold("mesh-commerce-channel", "User-Agent");
      } else {
        assert !EqualFold("mesh-version", "User-Agent");
      }
    }
    RankOf(order, "User-Agent", 4);
  }

  lemma HeaderOrderCaseInsensitiveRank5(order: seq<string>)
    requires order == ["x-newrelic-id", "x-api-key", "mesh-commerce-channel", "mesh-version", "user-agent", "x-request-auth", "x-acf-sensor-data", "content-type", "accept", "transfer-encoding", "host", "connection", "accept-encoding"]
    ensures Rank(order, "X-Request-Auth") == 5
  {
    assert EqualFoldFrom("x-request-auth", "X-Request-Auth", 8);
    forall j | 0 <= j < 5
      ensures !EqualFold(order[j], "X-Request-Auth")
    {
      if j == 0 {
        assert !EqualFold("x-newrelic-id", "X-Request-Auth");
      } else if j == 1 {
        assert !EqualFold("x-api-key", "X-Request-Auth");
      } else if j == 2 {
        assert !EqualFold("mesh-commerce-channel", "X-Request-Auth");
      } else if j == 3 {
        assert !EqualFold("mesh-version", "X-Request-Auth");
      } else {
        assert !EqualFold("user-agent", "X-Request-Auth");
      }
    }
    RankOf(order, "X-Request-Auth", 5);
  }

  lemma HeaderOrderCaseInsensitiveRank6(order: seq<string>)
    requires order == ["x-newrelic-id", "x-api-key", "mesh-commerce-channel", "mesh-version", "user-agent", "x-request-auth", "x-acf-sensor-data", "content-type", "accept", "transfer-encoding", "host", "connection", "accept-encoding"]
    ensures Rank(order, "X-acf-sensor-data") == 6
  {
    assert EqualFoldFrom("x-acf-sensor-data", "X-acf-sensor-data", 16);
    assert EqualFoldFrom("x-acf-sensor-data", "X-acf-sensor-data", 8);
    forall j | 0 <= j < 6
      ensures !EqualFold(order[j], "X-acf-sensor-data")
    {
      if j == 0 {
        assert !EqualFold("x-newrelic-id", "X-acf-sensor-data");
      } else if j == 1 {
        assert !EqualFold("x-api-key", "X-acf-sensor-data");
      } else if j == 2 {
        assert !EqualFold("mesh-commerce-channel", "X-acf-sensor-data");
      } else if j == 3 {
        assert !EqualFold("mesh-version", "X-acf-sensor-data");
      } else if j == 4 {
        assert !EqualFold("user-agent", "X-acf-sensor-data");
      } else {
        assert !EqualFold("x-request-auth", "X-acf-sensor-data");
      }
    }
    RankOf(order, "X-acf-sensor-data", 6);
  }

  lemma HeaderOrderCaseInsensitiveRank7(order: seq<string>)
    requires order == ["x-newrelic-id", "x-api-key", "mesh-commerce-channel", "mesh-version", "user-agent", "x-request-auth", "x-acf-sensor-data", "content-type", "accept", "transfer-encoding", "host", "connection", "accept-encoding"]
    ensures Rank(order, "Content-Type") == 7
  {
    assert EqualFold("content-type", "Content-Type");
    forall j | 0 <= j < 7
      ensures !EqualFold(order[j], "Content-Type")
    {
      if j == 0 {
        assert !EqualFold("x-newrelic-id", "Content-Type");
      } else if j == 1 {
        assert !EqualFold("x-api-key", "Content-Type");
      } else if j == 2 {
        assert !EqualFold("mesh-commerce-channel", "Content-Type");
      } else if j == 3 {
        assert !EqualFold("mesh-version", "Content-Type");
      } else if j == 4 {
        assert !EqualFold("user-agent", "Content-Type");
      } else if j == 5 {
        assert !EqualFold("x-request-auth", "Content-Type");
      } else {
        assert !EqualFold("x-acf-sensor-data", "Content-Type");
      }
    }
    RankOf(order, "Content-Type", 7);
  }

  lemma HeaderOrderCaseInsensitiveRank8(order: seq<string>)
    requires order == ["x-newrelic-id", "x-api-key", "mesh-commerce-channel", "mesh-version", "user-agent", "x-request-auth", "x-acf-sensor-data", "content-type", "accept", "transfer-encoding", "host", "connection", "accept-encoding"]
    ensures Rank(order, "Accept") == 8
  {
    assert EqualFold("accept", "Accept");
    forall j | 0 <= j < 8
      ensures !EqualFold(order[j], "Accept")
    {
      if j == 0 {
        assert !EqualFold("x-newrelic-id", "Accept");
      } else if j == 1 {
        assert !EqualFold("x-api-key", "Accept");
      } else if j == 2 {
        assert !EqualFold("mesh-commerce-channel", "Accept");
      } else if j == 3 {
        assert !EqualFold("mesh-version", "Accept");
      } else if j == 4 {
        assert !EqualFold("user-agent", "Accept");
      } else if j == 5 {
        assert !EqualFold("x-request-auth", "Accept");
      } else if j == 6 {
        assert !EqualFold("x-acf-sensor-data", "Accept");
      } else {
        assert !EqualFold("content-type", "Accept");
      }
    }
    RankOf(order, "Accept", 8);
  }

  lemma HeaderOrderCaseInsensitiveRank9(order: seq<string>)
    requires order == ["x-newrelic-id", "x-api-key", "mesh-commerce-channel", "mesh-version", "user-agent", "x-request-auth", "x-acf-sensor-data", "content-type", "accept", "transfer-encoding", "host", "connection", "accept-encoding"]
    ensures Rank(order, "Transfer-Encoding") == 9
  {
    assert EqualFoldFrom("transfer-encoding", "Transfer-Encoding", 16);
    assert EqualFoldFrom("transfer-encoding", "Transfer-Encoding", 8);
    forall j | 0 <= j < 9
      ensures !EqualFold(order[j], "Transfer-Encoding")
    {
      if j == 0 {
        assert !EqualFold("x-newrelic-id", "Transfer-Encoding");
      } else if j == 1 {
        assert !EqualFold("x-api-key", "Transfer-Encoding");
      } else if j == 2 {
        assert !EqualFold("mesh-commerce-channel", "Transfer-Encoding");
      } else if j == 3 {
        assert !EqualFold("mesh-version", "Transfer-Encoding");
      } else if j == 4 {
        assert !EqualFold("user-agent", "Transfer-Encoding");
      } else if j == 5 {
        assert !EqualFold("x-request-auth", "Transfer-Encoding");
      } else if j == 6 {
        assert !EqualFold("x-acf-sensor-data", "Transfer-Encoding");
      } else if j == 7 {
        assert !EqualFold("content-type", "Transfer-Encoding");
      } else {
        assert !EqualFold("accept", "Transfer-Encoding");
      }
    }
    RankOf(order, "Transfer-Encoding", 9);
  }

  lemma HeaderOrderCaseInsensitiveRank10(order: seq<string>)
    requires order == ["x-newrelic-id", "x-api-key", "mesh-commerce-channel", "mesh-version", "user-agent", "x-request-auth", "x-acf-sensor-data", "content-type", "accept", "transfer-encoding", "host", "connection", "accept-encoding"]
    ensures Rank(order, "Host") == 10
  {
    assert EqualFold("host", "Host");
    forall j | 0 <= j < 10
      ensures !EqualFold(order[j], "Host")
    {
      if j == 0 {
        assert !EqualFold("x-newrelic-id", "Host");
      } else if j == 1 {
        assert !EqualFold("x-api-key", "Host");
      } else if j == 2 {
        assert !EqualFold("mesh-commerce-channel", "Host");
      } else if j == 3 {
        assert !EqualFold("mesh-version", "Host");
      } else if j == 4 {
        assert !EqualFold("user-agent", "Host");
      } else if j == 5 {
        assert !EqualFold("x-request-auth", "Host");
      } else if j == 6 {
        assert !EqualFold("x-acf-sensor-data", "Host");
      } else if j == 7 {
        assert !EqualFold("content-type", "Host");
      } else if j == 8 {
        assert !EqualFold("accept", "Host");
      } else {
        assert !EqualFold("transfer-encoding", "Host");
      }
    }
    RankOf(order, "Host", 10);
  }

  lemma HeaderOrderCaseInsensitiveRank11(order: seq<string>)
    requires order == ["x-newrelic-id", "x-api-key", "mesh-commerce-channel", "mesh-version", "user-agent", "x-request-auth", "x-acf-sensor-data", "content-type", "accept", "transfer-encoding", "host", "connection", "accept-encoding"]
    ensures Rank(order, "Connection") == 11
  {
    assert EqualFold("connection", "Connection");
    forall j | 0 <= j < 11
      ensures !EqualFold(order[j], "Connection")
    {
      if j == 0 {
        assert !EqualFold("x-newrelic-id", "Connection");
      } else if j == 1 {
        assert !EqualFold("x-api-key", "Connection");
      } else if j == 2 {
        assert !EqualFold("mesh-commerce-channel", "Connection");
      } else if j == 3 {
        assert !EqualFold("mesh-version", "Connection");
      } else if j == 4 {
        assert !EqualFold("user-agent", "Connection");
      } else if j == 5 {
        assert !EqualFold("x-request-auth", "Connection");
      } else if j == 6 {
        assert !EqualFold("x-acf-sensor-data", "Connection");
      } else if j == 7 {
        assert !EqualFold("content-type", "Connection");
      } else if j == 8 {
        assert !EqualFold("accept", "Connection");
      } else if j == 9 {
        assert !EqualFold("transfer-encoding", "Connection");
      } else {
        assert !EqualFold("host", "Connection");
      }
    }
    RankOf(order, "Connection", 11);
  }

  lemma HeaderOrderCaseInsensitiveRank12(order: seq<string>)
    requires order == ["x-newrelic-id", "x-api-key", "mesh-commerce-channel", "mesh-version", "user-agent", "x-request-auth", "x-acf-sensor-data", "content-type", "accept", "transfer-encoding", "host", "connection", "accept-encoding"]
    ensures Rank(order, "Accept-Encoding") == 12
  {
    assert EqualFoldFrom("accept-encoding", "Accept-Encoding", 8);
    forall j | 0 <= j < 12
      ensures !EqualFold(order[j], "Accept-Encoding")
    {
      if j == 0 {
        assert !EqualFold("x-newrelic-id", "Accept-Encoding");
      } else if j == 1 {
        assert !EqualFold("x-api-key", "Accept-Encoding");
      } else if j == 2 {
        assert !EqualFold("mesh-commerce-channel", "Accept-Encoding");
      } else if j == 3 {
        assert !EqualFold("mesh-version", "Accept-Encoding");
      } else if j == 4 {
        assert !EqualFold("user-agent", "Accept-Encoding");
      } else if j == 5 {
        assert !EqualFold("x-request-auth", "Accept-Encoding");
      } else if j == 6 {
        assert !EqualFold("x-acf-sensor-data", "Accept-Encoding");
      } else if j == 7 {
        assert !EqualFold("content-type", "Accept-Encoding");
      } else if j == 8 {
        assert !EqualFold("accept", "Accept-Encoding");
      } else if j == 9 {
        assert !EqualFold("transfer-encoding", "Accept-Encoding");
      } else if j == 10 {
        assert !EqualFold("host", "Accept-Encoding");
      } else {
        assert !EqualFold("connection", "Accept-Encoding");
      }
    }
    RankOf(order, "Accept-Encoding", 12);
  }

  lemma HeaderOrderCaseInsensitiveCandidates(h: Header)
    requires h == HeaderOrderCaseInsensitiveHeader
    ensures forall n :: n in HeaderOrderCaseInsensitiveNames <==> n in h && n !in {} && n != OrderKey
  {
  }

  lemma HeaderOrderCaseInsensitiveAdjacent(order: seq<string>)
    requires order == ["x-newrelic-id", "x-api-key", "mesh-commerce-channel", "mesh-version", "user-agent", "x-request-auth", "x-acf-sensor-data", "content-type", "accept", "transfer-encoding", "host", "connection", "accept-encoding"]
    ensures forall i :: 0 <= i < |["X-NewRelic-ID", "x-api-key", "MESH-Commerce-Channel", "mesh-version", "User-Agent", "X-Request-Auth", "X-acf-sensor-data", "Content-Type", "Accept", "Transfer-Encoding", "Host", "Connection", "Accept-Encoding"]| - 1 ==> Before(order, ["X-NewRelic-ID", "x-api-key", "MESH-Commerce-Channel", "mesh-version", "User-Agent", "X-Request-Auth", "X-acf-sensor-data", "Content-Type", "Accept", "Transfer-Encoding", "Host", "Connection", "Accept-Encoding"][i], ["X-NewRelic-ID", "x-api-key", "MESH-Commerce-Channel", "mesh-version", "User-Agent", "X-Request-Auth", "X-acf-sensor-data", "Content-Type", "Accept", "Transfer-Encoding", "Host", "Connection", "Accept-Encoding"][i + 1])
  {
    forall i | 0 <= i < 12
      ensures Before(order, ["X-NewRelic-ID", "x-api-key", "MESH-Commerce-Channel", "mesh-version", "User-Agent", "X-Request-Auth", "X-acf-sensor-data", "Content-Type", "Accept", "Transfer-Encoding", "Host", "Connection", "Accept-Encoding"][i], ["X-NewRelic-ID", "x-api-key", "MESH-Commerce-Channel", "mesh-version", "User-Agent", "X-Request-Auth", "X-acf-sensor-data", "Content-Type", "Accept", "Transfer-Encoding", "Host", "Connection", "Accept-Encoding"][i + 1])
    {
      if i == 0 {
        HeaderOrderCaseInsensitiveRank0(order);
        HeaderOrderCaseInsensitiveRank1(order);
      } else if i == 1 {
        HeaderOrderCaseInsensitiveRank1(order);
        HeaderOrderCaseInsensitiveRank2(order);
      } else if i == 2 {
        HeaderOrderCaseInsensitiveRank2(order);
        HeaderOrderCaseInsensitiveRank3(order);
      } else if i == 3 {
        HeaderOrderCaseInsensitiveRank3(order);
        HeaderOrderCaseInsensitiveRank4(order);
      } else if i == 4 {
        HeaderOrderCaseInsensitiveRank4(order);
        HeaderOrderCaseInsensitiveRank5(order);
      } else if i == 5 {
        HeaderOrderCaseInsensitiveRank5(order);
        HeaderOrderCaseInsensitiveRank6(order);
      } else if i == 6 {
        HeaderOrderCaseInsensitiveRank6(order);
        HeaderOrderCaseInsensitiveRank7(order);
      } else if i == 7 {
        HeaderOrderCaseInsensitiveRank7(order);
        HeaderOrderCaseInsensitiveRank8(order);
      } else if i == 8 {
        HeaderOrderCaseInsensitiveRank8(order);
        HeaderOrderCaseInsensitiveRank9(order);
      } else if i == 9 {
        HeaderOrderCaseInsensitiveRank9(order);
        HeaderOrderCaseInsensitiveRank10(order);
      } else if i == 10 {
        HeaderOrderCaseInsensitiveRank10(order);
        HeaderOrderCaseInsensitiveRank11(order);
      } else {
        HeaderOrderCaseInsensitiveRank11(order);
        HeaderOrderCaseInsensitiveRank12(order);
      }
    }
  }

  lemma HeaderOrderCaseInsensitiveListing(h: Header)
    requires h == HeaderOrderCaseInsensitiveHeader
    ensures SortedListing(h, {}, HeaderOrderCaseInsensitiveNames)
  {
    assert OrderList(h) == ["x-newrelic-id", "x-api-key", "mesh-commerce-channel", "mesh-version", "user-agent", "x-request-auth", "x-acf-sensor-data", "content-type", "accept", "transfer-encoding", "host", "connection", "accept-encoding"];
    HeaderOrderCaseInsensitiveCandidates(h);
    HeaderOrderCaseInsensitiveAdjacent(OrderList(h));
  }

  lemma HeaderOrderCaseInsensitiveValues0()
    ensures Render(Expand("X-NewRelic-ID", ["12345"])) == "X-NewRelic-ID: 12345\r\n"
  {
    assert [] + ["12345"] == ["12345"];
    RenderExpandSnoc("X-NewRelic-ID", [], "12345");
    LineText29();
  }

  lemma HeaderOrderCaseInsensitiveStep0(h: Header)
    requires "X-NewRelic-ID" in h
    requires h["X-NewRelic-ID"] == ["12345"]
    ensures Render(Fields(h, ["X-NewRelic-ID"])) == "X-NewRelic-ID: 12345\r\n"
  {
    assert [] + ["X-NewRelic-ID"] == ["X-NewRelic-ID"];
    RenderFieldsSnoc(h, [], "X-NewRelic-ID");
    HeaderOrderCaseInsensitiveValues0();
  }

  lemma HeaderOrderCaseInsensitiveValues1()
    ensures Render(Expand("x-api-key", ["ABCDEFGHIJKLMNOPQRSTUVWXYZ"])) == ("x-api-key: " + "ABCDEFGHIJKLMNOPQRSTUVWXYZ" + "\r\n")
  {
    assert [] + ["ABCDEFGHIJKLMNOPQRSTUVWXYZ"] == ["ABCDEFGHIJKLMNOPQRSTUVWXYZ"];
    RenderExpandSnoc("x-api-key", [], "ABCDEFGHIJKLMNOPQRSTUVWXYZ");
    LineText30();
  }

  lemma HeaderOrderCaseInsensitiveStep1(h: Header)
    requires "x-api-key" in h
    requires h["x-api-key"] == ["ABCDEFGHIJKLMNOPQRSTUVWXYZ"]
    ensures Render(Fields(h, ["X-NewRelic-ID", "x-api-key"])) == Render(Fields(h, ["X-NewRelic-ID"])) + ("x-api-key: " + "ABCDEFGHIJKLMNOPQRSTUVWXYZ" + "\r\n")
  {
    assert ["X-NewRelic-ID"] + ["x-api-key"] == ["X-NewRelic-ID", "x-api-key"];
    RenderFieldsSnoc(h, ["X-NewRelic-ID"], "x-api-key");
    HeaderOrderCaseInsensitiveValues1();
  }

  lemma HeaderOrderCaseInsensitiveValues2()
    ensures Render(Expand("MESH-Commerce-Channel", ["android-app-phone"])) == "MESH-Commerce-Channel: android-app-phone\r\n"
  {
    assert [] + ["android-app-phone"] == ["android-app-phone"];
    RenderExpandSnoc("MESH-Commerce-Channel", [], "android-app-phone");
    LineText31();
  }

  lemma HeaderOrderCaseInsensitiveStep2(h: Header)
    requires "MESH-Commerce-Channel" in h
    requires h["MESH-Commerce-Channel"] == ["android-app-phone"]
    ensures Render(Fields(h, ["X-NewRelic-ID", "x-api-key", "MESH-Commerce-Channel"])) == Render(Fields(h, ["X-NewRelic-ID", "x-api-key"])) + "MESH-Commerce-Channel: android-app-phone\r\n"
  {
    assert ["X-NewRelic-ID", "x-api-key"] + ["MESH-Commerce-Channel"] == ["X-NewRelic-ID", "x-api-key", "MESH-Commerce-Channel"];
    RenderFieldsSnoc(h, ["X-NewRelic-ID", "x-api-key"], "MESH-Commerce-Channel");
    HeaderOrderCaseInsensitiveValues2();
  }

  lemma HeaderOrderCaseInsensitiveValues3()
    ensures Render(Expand("mesh-version", ["cart=4"])) == "mesh-version: cart=4\r\n"
  {
    assert [] + ["cart=4"] == ["cart=4"];
    RenderExpandSnoc("mesh-version", [], "cart=4");
    LineText32();
  }

  lemma HeaderOrderCaseInsensitiveStep3(h: Header)
    requires "mesh-version" in h
    requires h["mesh-version"] == ["cart=4"]
    ensures Render(Fields(h, ["X-NewRelic-ID", "x-api-key", "MESH-Commerce-Channel", "mesh-version"])) == Render(Fields(h, ["X-NewRelic-ID", "x-api-key", "MESH-Commerce-Channel"])) + "mesh-version: cart=4\r\n"
  {
    assert ["X-NewRelic-ID", "x-api-key", "MESH-Commerce-Channel"] + ["mesh-version"] == ["X-NewRelic-ID", "x-api-key", "MESH-Commerce-Channel", "mesh-version"];
    RenderFieldsSnoc(h, ["X-NewRelic-ID", "x-api-key", "MESH-Commerce-Channel"], "mesh-version");
    HeaderOrderCaseInsensitiveValues3();
  }

  lemma HeaderOrderCaseInsensitiveValues4()
    ensures Render(Expand("User-Agent", ["size/3.1.0.8355 (android-app-phone; Android 10; Build/CPH2185_11_A.28)"])) == ("User-Agent: " + "size/3.1.0.8355 (android-app-phone; Android 10; Build/CPH2185_11_A.28)" + "\r\n")
  {
    assert [] + ["size/3.1.0.8355 (android-app-phone; Android 10; Build/CPH2185_11_A.28)"] == ["size/3.1.0.8355 (android-app-phone; Android 10; Build/CPH2185_11_A.28)"];
    RenderExpandSnoc("User-Agent", [], "size/3.1.0.8355 (android-app-phone; Android 10; Build/CPH2185_11_A.28)");
    LineText33();
  }

  lemma HeaderOrderCaseInsensitiveStep4(h: Header)
    requires "User-Agent" in h
    requires h["User-Agent"] == ["size/3.1.0.8355 (android-app-phone; Android 10; Build/CPH2185_11_A.28)"]
    ensures Render(Fields(h, ["X-NewRelic-ID", "x-api-key", "MESH-Commerce-Channel", "mesh-version", "User-Agent"])) == Render(Fields(h, ["X-NewRelic-ID", "x-api-key", "MESH-Commerce-Channel", "mesh-version"])) + ("User-Agent: " + "size/3.1.0.8355 (android-app-phone; Android 10; Build/CPH2185_11_A.28)" + "\r\n")
  {
    assert ["X-NewRelic-ID", "x-api-key", "MESH-Commerce-Channel", "mesh-version"] + ["User-Agent"] == ["X-NewRelic-ID", "x-api-key", "MESH-Commerce-Channel", "mesh-version", "User-Agent"];
    RenderFieldsSnoc(h, ["X-NewRelic-ID", "x-api-key", "MESH-Commerce-Channel", "mesh-version"], "User-Agent");
    HeaderOrderCaseInsensitiveValues4();
  }

  lemma HeaderOrderCaseInsensitiveValues5()
    ensures Render(Expand("X-Request-Auth", ["hawkHeader"])) == "X-Request-Auth: hawkHeader\r\n"
  {
    assert [] + ["hawkHeader"] == ["hawkHeader"];
    RenderExpandSnoc("X-Request-Auth", [], "hawkHeader");
    LineText34();
  }

  lemma HeaderOrderCaseInsensitiveStep5(h: Header)
    requires "X-Request-Auth" in h
    requires h["X-Request-Auth"] == ["hawkHeader"]
    ensures Render(Fields(h, ["X-NewRelic-ID", "x-api-key", "MESH-Commerce-Channel", "mesh-version", "User-Agent", "X-Request-Auth"])) == Render(Fields(h, ["X-NewRelic-ID", "x-api-key", "MESH-Commerce-Channel", "mesh-version", "User-Agent"])) + "X-Request-Auth: hawkHeader\r\n"
  {
    assert ["X-NewRelic-ID", "x-api-key", "MESH-Commerce-Channel", "mesh-version", "User-Agent"] + ["X-Request-Auth"] == ["X-NewRelic-ID", "x-api-key", "MESH-Commerce-Channel", "mesh-version", "User-Agent", "X-Request-Auth"];
    RenderFieldsSnoc(h, ["X-NewRelic-ID", "x-api-key", "MESH-Commerce-Channel", "mesh-version", "User-Agent"], "X-Request-Auth");
    HeaderOrderCaseInsensitiveValues5();
  }

  lemma HeaderOrderCaseInsensitiveValues6()
    ensures Render(Expand("X-acf-sensor-data", ["3456"])) == "X-acf-sensor-data: 3456\r\n"
  {
    assert [] + ["3456"] == ["3456"];
    RenderExpandSnoc("X-acf-sensor-data", [], "3456");
    LineText35();
  }

  lemma HeaderOrderCaseInsensitiveStep6(h: Header)
    requires "X-acf-sensor-data" in h
    requires h["X-acf-sensor-data"] == ["3456"]
    ensures Render(Fields(h, ["X-NewRelic-ID", "x-api-key", "MESH-Commerce-Channel", "mesh-version", "User-Agent", "X-Request-Auth", "X-acf-sensor-data"])) == Render(Fields(h, ["X-NewRelic-ID", "x-api-key", "MESH-Commerce-Channel", "mesh-version", "User-Agent", "X-Request-Auth"])) + "X-acf-sensor-data: 3456\r\n"
  {
    assert ["X-NewRelic-ID", "x-api-key", "MESH-Commerce-Channel", "mesh-version", "User-Agent", "X-Request-Auth"] + ["X-acf-sensor-data"] == ["X-NewRelic-ID", "x-api-key", "MESH-Commerce-Channel", "mesh-version", "User-Agent", "X-Request-Auth", "X-acf-sensor-data"];
    RenderFieldsSnoc(h, ["X-NewRelic-ID", "x-api-key", "MESH-Commerce-Channel", "mesh-version", "User-Agent", "X-Request-Auth"], "X-acf-sensor-data");
    HeaderOrderCaseInsensitiveValues6();
  }

  lemma HeaderOrderCaseInsensitiveValues7()
    ensures Render(Expand("Content-Type", ["application/json; charset=UTF-8"])) == ("Content-Type: " + "application/json; charset=UTF-8" + "\r\n")
  {
    assert [] + ["application/json; charset=UTF-8"] == ["application/json; charset=UTF-8"];
    RenderExpandSnoc("Content-Type", [], "application/json; charset=UTF-8");
    LineText36();
  }

  lemma HeaderOrderCaseInsensitiveStep7(h: Header)
    requires "Content-Type" in h
    requires h["Content-Type"] == ["application/json; charset=UTF-8"]
    ensures Render(Fields(h, ["X-NewRelic-ID", "x-api-key", "MESH-Commerce-Channel", "mesh-version", "User-Agent", "X-Request-Auth", "X-acf-sensor-data", "Content-Type"])) == Render(Fields(h, ["X-NewRelic-ID", "x-api-key", "MESH-Commerce-Channel", "mesh-version", "User-Agent", "X-Request-Auth", "X-acf-sensor-data"])) + ("Content-Type: " + "application/json; charset=UTF-8" + "\r\n")
  {
    assert ["X-NewRelic-ID", "x-api-key", "MESH-Commerce-Channel", "mesh-version", "User-Agent", "X-Request-Auth", "X-acf-sensor-data"] + ["Content-Type"] == ["X-NewRelic-ID", "x-api-key", "MESH-Commerce-Channel", "mesh-version", "User-Agent", "X-Request-Auth", "X-acf-sensor-data", "Content-Type"];
    RenderFieldsSnoc(h, ["X-NewRelic-ID", "x-api-key", "MESH-Commerce-Channel", "mesh-version", "User-Agent", "X-Request-Auth", "X-acf-sensor-data"], "Content-Type");
    HeaderOrderCaseInsensitiveValues7();
  }

  lemma HeaderOrderCaseInsensitiveValues8()
    ensures Render(Expand("Accept", ["application/json"])) == "Accept: application/json\r\n"
  {
    assert [] + ["application/json"] == ["application/json"];
    RenderExpandSnoc("Accept", [], "application/json");
    LineText37();
  }

  lemma HeaderOrderCaseInsensitiveStep8(h: Header)
    requires "Accept" in h
    requires h["Accept"] == ["application/json"]
    ensures Render(Fields(h, ["X-NewRelic-ID", "x-api-key", "MESH-Commerce-Channel", "mesh-version", "User-Agent", "X-Request-Auth", "X-acf-sensor-data", "Content-Type", "Accept"])) == Render(Fields(h, ["X-NewRelic-ID", "x-api-key", "MESH-Commerce-Channel", "mesh-version", "User-Agent", "X-Request-Auth", "X-acf-sensor-data", "Content-Type"])) + "Accept: application/json\r\n"
  {
    assert ["X-NewRelic-ID", "x-api-key", "MESH-Commerce-Channel", "mesh-version", "User-Agent", "X-Request-Auth", "X-acf-sensor-data", "Content-Type"] + ["Accept"] == ["X-NewRelic-ID", "x-api-key", "MESH-Commerce-Channel", "mesh-version", "User-Agent", "X-Request-Auth", "X-acf-sensor-data", "Content-Type", "Accept"];
    RenderFieldsSnoc(h, ["X-NewRelic-ID", "x-api-key", "MESH-Commerce-Channel", "mesh-version", "User-Agent", "X-Request-Auth", "X-acf-sensor-data", "Content-Type"], "Accept");
    HeaderOrderCaseInsensitiveValues8();
  }

  lemma HeaderOrderCaseInsensitiveValues9()
    ensures Render(Expand("Transfer-Encoding", ["chunked"])) == "Transfer-Encoding: chunked\r\n"
  {
    assert [] + ["chunked"] == ["chunked"];
    RenderExpandSnoc("Transfer-Encoding", [], "chunked");
    LineText38();
  }

  lemma HeaderOrderCaseInsensitiveStep9(h: Header)
    requires "Transfer-Encoding" in h
    requires h["Transfer-Encoding"] == ["chunked"]
    ensures Render(Fields(h, ["X-NewRelic-ID", "x-api-key", "MESH-Commerce-Channel", "mesh-version", "User-Agent", "X-Request-Auth", "X-acf-sensor-data", "Content-Type", "Accept", "Transfer-Encoding"])) == Render(Fields(h, ["X-NewRelic-ID", "x-api-key", "MESH-Commerce-Channel", "mesh-version", "User-Agent", "X-Request-Auth", "X-acf-sensor-data", "Content-Type", "Accept"])) + "Transfer-Encoding: chunked\r\n"
  {
    assert ["X-NewRelic-ID", "x-api-key", "MESH-Commerce-Channel", "mesh-version", "User-Agent", "X-Request-Auth", "X-acf-sensor-data", "Content-Type", "Accept"] + ["Transfer-Encoding"] == ["X-NewRelic-ID", "x-api-key", "MESH-Commerce-Channel", "mesh-version", "User-Agent", "X-Request-Auth", "X-acf-sensor-data", "Content-Type", "Accept", "Transfer-Encoding"];
    RenderFieldsSnoc(h, ["X-NewRelic-ID", "x-api-key", "MESH-Commerce-Channel", "mesh-version", "User-Agent", "X-Request-Auth", "X-acf-sensor-data", "Content-Type", "Accept"], "Transfer-Encoding");
    HeaderOrderCaseInsensitiveValues9();
  }

  lemma HeaderOrderCaseInsensitiveValues10()
    ensures Render(Expand("Host", ["prod.jdgroupmesh.cloud"])) == ("Host: " + "prod.jdgroupmesh.cloud" + "\r\n")
  {
    assert [] + ["prod.jdgroupmesh.cloud"] == ["prod.jdgroupmesh.cloud"];
    RenderExpandSnoc("Host", [], "prod.jdgroupmesh.cloud");
    LineText39();
  }

  lemma HeaderOrderCaseInsensitiveStep10(h: Header)
    requires "Host" in h
    requires h["Host"] == ["prod.jdgroupmesh.cloud"]
    ensures Render(Fields(h, ["X-NewRelic-ID", "x-api-key", "MESH-Commerce-Channel", "mesh-version", "User-Agent", "X-Request-Auth", "X-acf-sensor-data", "Content-Type", "Accept", "Transfer-Encoding", "Host"])) == Render(Fields(h, ["X-NewRelic-ID", "x-api-key", "MESH-Commerce-Channel", "mesh-version", "User-Agent", "X-Request-Auth", "X-acf-sensor-data", "Content-Type", "Accept", "Transfer-Encoding"])) + ("Host: " + "prod.jdgroupmesh.cloud" + "\r\n")
  {
    assert ["X-NewRelic-ID", "x-api-key", "MESH-Commerce-Channel", "mesh-version", "User-Agent", "X-Request-Auth", "X-acf-sensor-data", "Content-Type", "Accept", "Transfer-Encoding"] + ["Host"] == ["X-NewRelic-ID", "x-api-key", "MESH-Commerce-Channel", "mesh-version", "User-Agent", "X-Request-Auth", "X-acf-sensor-data", "Content-Type", "Accept", "Transfer-Encoding", "Host"];
    RenderFieldsSnoc(h, ["X-NewRelic-ID", "x-api-key", "MESH-Commerce-Channel", "mesh-version", "User-Agent", "X-Request-Auth", "X-acf-sensor-data", "Content-Type", "Accept", "Transfer-Encoding"], "Host");
    HeaderOrderCaseInsensitiveValues10();
  }

  lemma HeaderOrderCaseInsensitiveValues11()
    ensures Render(Expand("Connection", ["Keep-Alive"])) == "Connection: Keep-Alive\r\n"
  {
    assert [] + ["Keep-Alive"] == ["Keep-Alive"];
    RenderExpandSnoc("Connection", [], "Keep-Alive");
    LineText40();
  }

  lemma HeaderOrderCaseInsensitiveStep11(h: Header)
    requires "Connection" in h
    requires h["Connection"] == ["Keep-Alive"]
    ensures Render(Fields(h, ["X-NewRelic-ID", "x-api-key", "MESH-Commerce-Channel", "mesh-version", "User-Agent", "X-Request-Auth", "X-acf-sensor-data", "Content-Type", "Accept", "Transfer-Encoding", "Host", "Connection"])) == Render(Fields(h, ["X-NewRelic-ID", "x-api-key", "MESH-Commerce-Channel", "mesh-version", "User-Agent", "X-Request-Auth", "X-acf-sensor-data", "Content-Type", "Accept", "Transfer-Encoding", "Host"])) + "Connection: Keep-Alive\r\n"
  {
    assert ["X-NewRelic-ID", "x-api-key", "MESH-Commerce-Channel", "mesh-version", "User-Agent", "X-Request-Auth", "X-acf-sensor-data", "Content-Type", "Accept", "Transfer-Encoding", "Host"] + ["Connection"] == ["X-NewRelic-ID", "x-api-key", "MESH-Commerce-Channel", "mesh-version", "User-Agent", "X-Request-Auth", "X-acf-sensor-data", "Content-Type", "Accept", "Transfer-Encoding", "Host", "Connection"];
    RenderFieldsSnoc(h, ["X-NewRelic-ID", "x-api-key", "MESH-Commerce-Channel", "mesh-version", "User-Agent", "X-Request-Auth", "X-acf-sensor-data", "Content-Type", "Accept", "Transfer-Encoding", "Host"], "Connection");
    HeaderOrderCaseInsensitiveValues11();
  }

  lemma HeaderOrderCaseInsensitiveValues12()
    ensures Render(Expand("Accept-Encoding", ["gzip"])) == "Accept-Encoding: gzip\r\n"
  {
    assert [] + ["gzip"] == ["gzip"];
    RenderExpandSnoc("Accept-Encoding", [], "gzip");
    LineText41();
  }

  lemma HeaderOrderCaseInsensitiveStep12(h: Header)
    requires "Accept-Encoding" in h
    requires h["Accept-Encoding"] == ["gzip"]
    ensures Render(Fields(h, ["X-NewRelic-ID", "x-api-key", "MESH-Commerce-Channel", "mesh-version", "User-Agent", "X-Request-Auth", "X-acf-sensor-data", "Content-Type", "Accept", "Transfer-Encoding", "Host", "Connection", "Accept-Encoding"])) == Render(Fields(h, ["X-NewRelic-ID", "x-api-key", "MESH-Commerce-Channel", "mesh-version", "User-Agent", "X-Request-Auth", "X-acf-sensor-data", "Content-Type", "Accept", "Transfer-Encoding", "Host", "Connection"])) + "Accept-Encoding: gzip\r\n"
  {
    assert ["X-NewRelic-ID", "x-api-key", "MESH-Commerce-Channel", "mesh-version", "User-Agent", "X-Request-Auth", "X-acf-sensor-data", "Content-Type", "Accept", "Transfer-Encoding", "Host", "Connection"] + ["Accept-Encoding"] == ["X-NewRelic-ID", "x-api-key", "MESH-Commerce-Channel", "mesh-version", "User-Agent", "X-Request-Auth", "X-acf-sensor-data", "Content-Type", "Accept", "Transfer-Encoding", "Host", "Connection", "Accept-Encoding"];
    RenderFieldsSnoc(h, ["X-NewRelic-ID", "x-api-key", "MESH-Commerce-Channel", "mesh-version", "User-Agent", "X-Request-Auth", "X-acf-sensor-data", "Content-Type", "Accept", "Transfer-Encoding", "Host", "Connection"], "Accept-Encoding");
    HeaderOrderCaseInsensitiveValues12();
  }

  lemma HeaderOrderCaseInsensitiveStored0(h: Header)
    requires h == HeaderOrderCaseInsensitiveHeader
    ensures "X-NewRelic-ID" in h && h["X-NewRelic-ID"] == ["12345"]
            && "x-api-key" in h && h["x-api-key"] == ["ABCDEFGHIJKLMNOPQRSTUVWXYZ"]
            && "MESH-Commerce-Channel" in h && h["MESH-Commerce-Channel"] == ["android-app-phone"]
            && "mesh-version" in h && h["mesh-version"] == ["cart=4"]
            && "User-Agent" in h && h["User-Agent"] == ["size/3.1.0.8355 (android-app-phone; Android 10; Build/CPH2185_11_A.28)"]
  {
  }

  lemma HeaderOrderCaseInsensitiveStored1(h: Header)
    requires h == HeaderOrderCaseInsensitiveHeader
    ensures "X-Request-Auth" in h && h["X-Request-Auth"] == ["hawkHeader"]
            && "X-acf-sensor-data" in h && h["X-acf-sensor-data"] == ["3456"]
            && "Content-Type" in h && h["Content-Type"] == ["application/json; charset=UTF-8"]
            && "Accept" in h && h["Accept"] == ["application/json"]
            && "Transfer-Encoding" in h && h["Transfer-Encoding"] == ["chunked"]
  {
  }

  lemma HeaderOrderCaseInsensitiveStored2(h: Header)
    requires h == HeaderOrderCaseInsensitiveHeader
    ensures "Host" in h && h["Host"] == ["prod.jdgroupmesh.cloud"]
            && "Connection" in h && h["Connection"] == ["Keep-Alive"]
            && "Accept-Encoding" in h && h["Accept-Encoding"] == ["gzip"]
  {
  }

  lemma HeaderOrderCaseInsensitiveBlock(h: Header)
    requires h == HeaderOrderCaseInsensitiveHeader
    ensures Render(Fields(h, HeaderOrderCaseInsensitiveNames))
            == "X-NewRelic-ID: 12345\r\n"
              + ("x-api-key: " + "ABCDEFGHIJKLMNOPQRSTUVWXYZ" + "\r\n")
              + "MESH-Commerce-Channel: android-app-phone\r\n"
              + "mesh-version: cart=4\r\n"
              + ("User-Agent: " + "size/3.1.0.8355 (android-app-phone; Android 10; Build/CPH2185_11_A.28)" + "\r\n")
              + "X-Request-Auth: hawkHeader\r\n"
              + "X-acf-sensor-data: 3456\r\n"
              + ("Content-Type: " + "application/json; charset=UTF-8" + "\r\n")
              + "Accept: application/json\r\n"
              + "Transfer-Encoding: chunked\r\n"
              + ("Host: " + "prod.jdgroupmesh.cloud" + "\r\n")
              + "Connection: Keep-Alive\r\n"
              + "Accept-Encoding: gzip\r\n"
  {
    HeaderOrderCaseInsensitiveStored0(h);
    HeaderOrderCaseInsensitiveStored1(h);
    HeaderOrderCaseInsensitiveStored2(h);
    HeaderOrderCaseInsensitiveStep0(h);
    HeaderOrderCaseInsensitiveStep1(h);
    HeaderOrderCaseInsensitiveStep2(h);
    HeaderOrderCaseInsensitiveStep3(h);
    HeaderOrderCaseInsensitiveStep4(h);
    HeaderOrderCaseInsensitiveStep5(h);
    HeaderOrderCaseInsensitiveStep6(h);
    HeaderOrderCaseInsensitiveStep7(h);
    HeaderOrderCaseInsensitiveStep8(h);
    HeaderOrderCaseInsensitiveStep9(h);
    HeaderOrderCaseInsensitiveStep10(h);
    HeaderOrderCaseInsensitiveStep11(h);
    HeaderOrderCaseInsensitiveStep12(h);
  }

  /** Header-Order entries match stored names up to ASCII case; lines keep the stored casing. */
  lemma HeaderOrderCaseInsensitive(h: Header)
    requires h == HeaderOrderCaseInsensitiveHeader
    ensures WriteSubset(h, {})
            == "X-NewRelic-ID: 12345\r\n"
              + ("x-api-key: " + "ABCDEFGHIJKLMNOPQRSTUVWXYZ" + "\r\n")
              + "MESH-Commerce-Channel: android-app-phone\r\n"
              + "mesh-version: cart=4\r\n"
              + ("User-Agent: " + "size/3.1.0.8355 (android-app-phone; Android 10; Build/CPH2185_11_A.28)" + "\r\n")
              + "X-Request-Auth: hawkHeader\r\n"
              + "X-acf-sensor-data: 3456\r\n"
              + ("Content-Type: " + "application/json; charset=UTF-8" + "\r\n")
              + "Accept: application/json\r\n"
              + "Transfer-Encoding: chunked\r\n"
              + ("Host: " + "prod.jdgroupmesh.cloud" + "\r\n")
              + "Connection: Keep-Alive\r\n"
              + "Accept-Encoding: gzip\r\n"
  {
    HeaderOrderCaseInsensitiveListing(h);
    HeaderOrderCaseInsensitiveBlock(h);
    WriteSubsetOfSortedNames(h, {}, HeaderOrderCaseInsensitiveNames);
  }

  /** One expected line, as the test table writes it. */
  lemma LineText0()
    ensures "Content-Length" + ": " + "0" + "\r\n" == "Content-Length: 0\r\n"
  {
  }

  /** One expected line, as the test table writes it. */
  lemma LineText1()
    ensures "Content-Type" + ": " + "text/html; charset=UTF-8" + "\r\n" == ("Content-Type: " + "text/html; charset=UTF-8" + "\r\n")
  {
  }

  /** One expected line, as the test table writes it. */
  lemma LineText2()
    ensures "Content-Length" + ": " + "1" + "\r\n" == "Content-Length: 1\r\n"
  {
  }

  /** One expected line, as the test table writes it. */
  lemma LineText3()
    ensures "Content-Length" + ": " + "2" + "\r\n" == "Content-Length: 2\r\n"
  {
  }

  /** One expected line, as the test table writes it. */
  lemma LineText4()
    ensures "Content-Encoding" + ": " + "gzip" + "\r\n" == "Content-Encoding: gzip\r\n"
  {
  }

  /** One expected line, as the test table writes it. */
  lemma LineText5()
    ensures "Expires" + ": " + "-1" + "\r\n" == "Expires: -1\r\n"
  {
  }

  /** One expected line, as the test table writes it. */
  lemma LineText6()
    ensures "Blank" + ": " + "" + "\r\n" == "Blank: \r\n"
  {
  }

  /** One expected line, as the test table writes it. */
  lemma LineText7()
    ensures "Double-Blank" + ": " + "" + "\r\n" == "Double-Blank: \r\n"
  {
  }

  /** One expected line, as the test table writes it. */
  lemma LineText8()
    ensures "k1" + ": " + "1a" + "\r\n" == "k1: 1a\r\n"
  {
  }

  /** One expected line, as the test table writes it. */
  lemma LineText9()
    ensures "k1" + ": " + "1b" + "\r\n" == "k1: 1b\r\n"
  {
  }

  /** One expected line, as the test table writes it. */
  lemma LineText10()
    ensures "k2" + ": " + "2a" + "\r\n" == "k2: 2a\r\n"
  {
  }

  /** One expected line, as the test table writes it. */
  lemma LineText11()
    ensures "k2" + ": " + "2b" + "\r\n" == "k2: 2b\r\n"
  {
  }

  /** One expected line, as the test table writes it. */
  lemma LineText12()
    ensures "k3" + ": " + "3a" + "\r\n" == "k3: 3a\r\n"
  {
  }

  /** One expected line, as the test table writes it. */
  lemma LineText13()
    ensures "k3" + ": " + "3b" + "\r\n" == "k3: 3b\r\n"
  {
  }

  /** One expected line, as the test table writes it. */
  lemma LineText14()
    ensures "k4" + ": " + "4a" + "\r\n" == "k4: 4a\r\n"
  {
  }

  /** One expected line, as the test table writes it. */
  lemma LineText15()
    ensures "k4" + ": " + "4b" + "\r\n" == "k4: 4b\r\n"
  {
  }

  /** One expected line, as the test table writes it. */
  lemma LineText16()
    ensures "k6" + ": " + "6a" + "\r\n" == "k6: 6a\r\n"
  {
  }

  /** One expected line, as the test table writes it. */
  lemma LineText17()
    ensures "k6" + ": " + "6b" + "\r\n" == "k6: 6b\r\n"
  {
  }

  /** One expected line, as the test table writes it. */
  lemma LineText18()
    ensures "k7" + ": " + "7a" + "\r\n" == "k7: 7a\r\n"
  {
  }

  /** One expected line, as the test table writes it. */
  lemma LineText19()
    ensures "k7" + ": " + "7b" + "\r\n" == "k7: 7b\r\n"
  {
  }

  /** One expected line, as the test table writes it. */
  lemma LineText20()
    ensures "k8" + ": " + "8a" + "\r\n" == "k8: 8a\r\n"
  {
  }

  /** One expected line, as the test table writes it. */
  lemma LineText21()
    ensures "k8" + ": " + "8b" + "\r\n" == "k8: 8b\r\n"
  {
  }

  /** One expected line, as the test table writes it. */
  lemma LineText22()
    ensures "k9" + ": " + "9a" + "\r\n" == "k9: 9a\r\n"
  {
  }

  /** One expected line, as the test table writes it. */
  lemma LineText23()
    ensures "k9" + ": " + "9b" + "\r\n" == "k9: 9b\r\n"
  {
  }

  /** One expected line, as the test table writes it. */
  lemma LineText24()
    ensures "e" + ": " + "1" + "\r\n" == "e: 1\r\n"
  {
  }

  /** One expected line, as the test table writes it. */
  lemma LineText25()
    ensures "a" + ": " + "2" + "\r\n" == "a: 2\r\n"
  {
  }

  /** One expected line, as the test table writes it. */
  lemma LineText26()
    ensures "b" + ": " + "3" + "\r\n" == "b: 3\r\n"
  {
  }

  /** One expected line, as the test table writes it. */
  lemma LineText27()
    ensures "d" + ": " + "4" + "\r\n" == "d: 4\r\n"
  {
  }

  /** One expected line, as the test table writes it. */
  lemma LineText28()
    ensures "c" + ": " + "5" + "\r\n" == "c: 5\r\n"
  {
  }

  /** One expected line, as the test table writes it. */
  lemma LineText29()
    ensures "X-NewRelic-ID" + ": " + "12345" + "\r\n" == "X-NewRelic-ID: 12345\r\n"
  {
  }

  /** One expected line, as the test table writes it. */
  lemma LineText30()
    ensures "x-api-key" + ": " + "ABCDEFGHIJKLMNOPQRSTUVWXYZ" + "\r\n" == ("x-api-key: " + "ABCDEFGHIJKLMNOPQRSTUVWXYZ" + "\r\n")
  {
  }

  /** One expected line, as the test table writes it. */
  lemma LineText31()
    ensures "MESH-Commerce-Channel" + ": " + "android-app-phone" + "\r\n" == "MESH-Commerce-Channel: android-app-phone\r\n"
  {
  }

  /** One expected line, as the test table writes it. */
  lemma LineText32()
    ensures "mesh-version" + ": " + "cart=4" + "\r\n" == "mesh-version: cart=4\r\n"
  {
  }

  /** One expected line, as the test table writes it. */
  lemma LineText33()
    ensures "User-Agent" + ": " + "size/3.1.0.8355 (android-app-phone; Android 10; Build/CPH2185_11_A.28)" + "\r\n" == ("User-Agent: " + "size/3.1.0.8355 (android-app-phone; Android 10; Build/CPH2185_11_A.28)" + "\r\n")
  {
  }

  /** One expected line, as the test table writes it. */
  lemma LineText34()
    ensures "X-Request-Auth" + ": " + "hawkHeader" + "\r\n" == "X-Request-Auth: hawkHeader\r\n"
  {
  }

  /** One expected line, as the test table writes it. */
  lemma LineText35()
    ensures "X-acf-sensor-data" + ": " + "3456" + "\r\n" == "X-acf-sensor-data: 3456\r\n"
  {
  }

  /** One expected line, as the test table writes it. */
  lemma LineText36()
    ensures "Content-Type" + ": " + "application/json; charset=UTF-8" + "\r\n" == ("Content-Type: " + "application/json; charset=UTF-8" + "\r\n")
  {
  }

  /** One expected line, as the test table writes it. */
  lemma LineText37()
    ensures "Accept" + ": " + "application/json" + "\r\n" == "Accept: application/json\r\n"
  {
  }

  /** One expected line, as the test table writes it. */
  lemma LineText38()
    ensures "Transfer-Encoding" + ": " + "chunked" + "\r\n" == "Transfer-Encoding: chunked\r\n"
  {
  }

  /** One expected line, as the test table writes it. */
  lemma LineText39()
    ensures "Host" + ": " + "prod.jdgroupmesh.cloud" + "\r\n" == ("Host: " + "prod.jdgroupmesh.cloud" + "\r\n")
  {
  }

  /** One expected line, as the test table writes it. */
  lemma LineText40()
    ensures "Connection" + ": " + "Keep-Alive" + "\r\n" == "Connection: Keep-Alive\r\n"
  {
  }

  /** One expected line, as the test table writes it. */
  lemma LineText41()
    ensures "Accept-Encoding" + ": " + "gzip" + "\r\n" == "Accept-Encoding: gzip\r\n"
  {
  }
}
