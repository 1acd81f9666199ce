/** Worked examples of the `ls` pass on concrete texts: percentage parsing, and the
    GeoService sample of the command's documentation in both modes. */
module LsExamples {
  import opened Wrappers
  import opened GoInt
  import opened GoStrings
  import opened Ls
  import opened LsFacts

  /** No clamping: a value over 100 is taken as it is. */
  lemma ParseOverHundred()
    ensures ParsePercent("150%") == Some(150)
  {
    ParsePercentOfText("150%", 150);
  }

  /** A text without `%` is parsed whole. */
  lemma ParseWithoutPercent()
    ensures ParsePercent("7") == Some(7)
  {
    BeforePercentOf("7", "");
  }

  /** Nothing before the first `%`, or nothing at all, is an error. */
  lemma ParseEmpty()
    ensures ParsePercent("%") == None
    ensures ParsePercent("") == None
  {
    BeforePercentOf("", "");
    assert "%" == "" + "%" + "";
  }

  /** A fraction is an error: Atoi takes whole numbers only. */
  lemma ParseFraction()
    ensures ParsePercent("5.5%") == None
  {
    BeforePercentOf("5.5", "");
    assert "5.5%" == "5.5" + "%" + "";
    assert "5.5"[1..] == ".5";
    assert ScanDigits("5.5") == None by {
      assert "5.5"[..2] == "5.";
      assert "5."[..1] == "5";
      assert ScanDigits("5.") == None;
    }
  }

  /** Leading zeros and a `+` sign are accepted, and `-0` is zero. */
  lemma ParseSignsAndZeros()
    ensures ParsePercent("05%") == Some(5)
    ensures ParsePercent("+5%") == Some(5)
    ensures ParsePercent("-0%") == Some(0)
  {
    BeforePercentOf("05", "");
    assert "05%" == "05" + "%" + "";
    assert DecimalValue("05") == 5 by { assert "05"[1..] == "5"; }
    BeforePercentOf("+5", "");
    assert "+5%" == "+5" + "%" + "";
    assert Unsigned("+5") == "5";
    BeforePercentOf("-0", "");
    assert "-0%" == "-0" + "%" + "";
    assert Unsigned("-0") == "0";
  }

  /** A sign with no digits after it is an error. */
  lemma ParseBareSign()
    ensures ParsePercent("-%") == None
    ensures ParsePercent("+%") == None
  {
    BeforePercentOf("-", "");
    assert "-%" == "-" + "%" + "";
    assert Unsigned("-") == [];
    BeforePercentOf("+", "");
    assert "+%" == "+" + "%" + "";
    assert Unsigned("+") == [];
  }

  const Geo1: RunOutput := RunOutput(ServiceResponse("51%", "76%", "GeoService"), "10.58.1.68")
  const Geo2: RunOutput := RunOutput(ServiceResponse("81%", "8%", "GeoService"), "10.58.1.144")
  const Geo3: RunOutput := RunOutput(ServiceResponse("43%", "9%", "GeoService"), "10.58.1.20")

  lemma GeoReadings1()
    ensures ParsePair("51%", "76%") == Success((51, 76))
  {
    ParsePercentOfText("51%", 51);
    ParsePercentOfText("76%", 76);
  }

  lemma GeoReadings2()
    ensures ParsePair("81%", "8%") == Success((81, 8))
  {
    ParsePercentOfText("81%", 81);
    ParsePercentOfText("8%", 8);
  }

  lemma GeoReadings3()
    ensures ParsePair("43%", "9%") == Success((43, 9))
  {
    ParsePercentOfText("43%", 43);
    ParsePercentOfText("9%", 9);
  }

  const Row1: MergedRow := MergedRow(["10.58.1.68"], "GeoService", 51, 76, 1)
  const Row2: MergedRow := MergedRow(["10.58.1.68", "10.58.1.144"], "GeoService", 66, 42, 2)
  const Row3: MergedRow := MergedRow(["10.58.1.68", "10.58.1.144", "10.58.1.20"], "GeoService", 58, 31, 3)

  /** The first GeoService sample creates the merged row with its own readings. */
  lemma MergedExample1()
    ensures Fold(true, map[], [Geo1]) == Success(map["GeoService" := Merged(Row1)])
  {
    GeoReadings1();
    assert [Geo1][..0] == [];
  }

  /** The second sample averages cpu 51 and 81 to 66, and memory 76 and 8 to 42. */
  lemma StepGeo2()
    ensures Step(true, map["GeoService" := Merged(Row1)], Geo2) == Success(map["GeoService" := Merged(Row2)])
  {
    GeoReadings2();
    MergeExact(Row1, "10.58.1.144", 81, 8);
    assert Row1.ips + ["10.58.1.144"] == Row2.ips;
    var rows := map["GeoService" := Merged(Row1)];
    assert rows["GeoService" := Merged(Row2)] == map["GeoService" := Merged(Row2)];
  }

  /** The third sample gives the averages 58 and 31 over three replicas. */
  lemma StepGeo3()
    ensures Step(true, map["GeoService" := Merged(Row2)], Geo3) == Success(map["GeoService" := Merged(Row3)])
  {
    GeoReadings3();
    MergeExact(Row2, "10.58.1.20", 43, 9);
    assert Row2.ips + ["10.58.1.20"] == Row3.ips;
    var rows := map["GeoService" := Merged(Row2)];
    assert rows["GeoService" := Merged(Row3)] == map["GeoService" := Merged(Row3)];
  }

  lemma MergedExample2()
    ensures Fold(true, map[], [Geo1, Geo2]) == Success(map["GeoService" := Merged(Row2)])
  {
    var outs := [Geo1, Geo2];
    assert outs[..|outs| - 1] == [Geo1] && outs[|outs| - 1] == Geo2;
    MergedExample1();
    StepGeo2();
  }

  lemma MergedExample3()
    ensures Fold(true, map[], [Geo1, Geo2, Geo3]) == Success(map["GeoService" := Merged(Row3)])
  {
    var outs := [Geo1, Geo2, Geo3];
    assert outs[..|outs| - 1] == [Geo1, Geo2] && outs[|outs| - 1] == Geo3;
    MergedExample2();
    StepGeo3();
  }

  const DefaultGeo: seq<DefaultRow> := [
    DefaultRow("10.58.1.68", "GeoService", Healthy, "51%", "76%"),
    DefaultRow("10.58.1.144", "GeoService", Healthy, "81%", "8%"),
    DefaultRow("10.58.1.20", "GeoService", Healthy, "43%", "9%")]

  lemma DefaultStepGeo1()
    ensures Step(false, map[], Geo1) == Success(map["GeoService" := DefaultRows(DefaultGeo[..1])])
  {
    GeoReadings1();
    assert [] + [DefaultGeo[0]] == DefaultGeo[..1];
  }

  lemma DefaultStepGeo2()
    ensures Step(false, map["GeoService" := DefaultRows(DefaultGeo[..1])], Geo2) ==
      Success(map["GeoService" := DefaultRows(DefaultGeo[..2])])
  {
    GeoReadings2();
    assert DefaultGeo[..1] + [DefaultGeo[1]] == DefaultGeo[..2];
    var rows := map["GeoService" := DefaultRows(DefaultGeo[..1])];
    assert rows["GeoService" := DefaultRows(DefaultGeo[..2])] == map["GeoService" := DefaultRows(DefaultGeo[..2])];
  }

  lemma DefaultStepGeo3()
    ensures Step(false, map["GeoService" := DefaultRows(DefaultGeo[..2])], Geo3) ==
      Success(map["GeoService" := DefaultRows(DefaultGeo)])
  {
    GeoReadings3();
    assert DefaultGeo[..2] + [DefaultGeo[2]] == DefaultGeo;
    var rows := map["GeoService" := DefaultRows(DefaultGeo[..2])];
    assert rows["GeoService" := DefaultRows(DefaultGeo)] == map["GeoService" := DefaultRows(DefaultGeo)];
  }

  lemma DefaultExample1()
    ensures Fold(false, map[], [Geo1]) == Success(map["GeoService" := DefaultRows(DefaultGeo[..1])])
  {
    DefaultStepGeo1();
    assert [Geo1][..0] == [];
  }

  lemma DefaultExample2()
    ensures Fold(false, map[], [Geo1, Geo2]) == Success(map["GeoService" := DefaultRows(DefaultGeo[..2])])
  {
    DefaultExample1();
    DefaultStepGeo2();
    assert [Geo1, Geo2][..1] == [Geo1];
  }

  /** The same three samples in default mode stay three rows, each classified on its own
      (81% cpu is still below the 90% threshold). */
  lemma DefaultExample()
    ensures Fold(false, map[], [Geo1, Geo2, Geo3]) == Success(map["GeoService" := DefaultRows(DefaultGeo)])
  {
    DefaultExample2();
    DefaultStepGeo3();
    assert [Geo1, Geo2, Geo3][..2] == [Geo1, Geo2];
  }
}
