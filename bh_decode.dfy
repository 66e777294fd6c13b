/**
  `bh_decode`: turns a system-parameter key of a Becker & Hickl .SET file
  into a readable label by a fixed chain of twelve literal substring
  replacements, each applied to the whole string before the next one starts.
*/
module BhDecode {
  import opened PyStr

  /** `bh_decode(s)`: a key containing none of the twelve patterns is its own label. */
  function Decode(s: string): (r: string)
    ensures (forall i :: 0 <= i < |Patterns| ==> !Contains(s, Patterns[i])) ==> r == s
  {
    assert (forall i :: 0 <= i < |Patterns| ==> !Contains(s, Patterns[i])) ==>
      !Contains(s, Patterns[0]) && !Contains(s, Patterns[1]) && !Contains(s, Patterns[2])
      && !Contains(s, Patterns[3]) && !Contains(s, Patterns[4]) && !Contains(s, Patterns[5])
      && !Contains(s, Patterns[6]) && !Contains(s, Patterns[7]) && !Contains(s, Patterns[8])
      && !Contains(s, Patterns[9]) && !Contains(s, Patterns[10]) && !Contains(s, Patterns[11]);
    var s := Replace(s, "SP_", "");
    var s := Replace(s, "_ZC", " ZC Thresh.");
    var s := Replace(s, "_LL", " Limit Low");
    var s := Replace(s, "_LH", " Limit High");
    var s := Replace(s, "_FD", " Freq. Div.");
    var s := Replace(s, "_OF", " Offset");
    var s := Replace(s, "_HF", " Holdoff");
    var s := Replace(s, "TAC_G", "TAC Gain");
    var s := Replace(s, "TAC_R", "TAC Range");
    var s := Replace(s, "_TC", " Time/Chan");
    var s := Replace(s, "_TD", " Time/Div");
    var s := Replace(s, "_FQ", " Threshold");
    s
  }

  /** The twelve patterns, in the order they are replaced. */
  const Patterns: seq<string> :=
    ["SP_", "_ZC", "_LL", "_LH", "_FD", "_OF", "_HF", "TAC_G", "TAC_R", "_TC", "_TD", "_FQ"]

  /** `Decode` is the twelve replacements applied one after another, innermost first. */
  lemma {:induction false} DecodeSteps(s: string)
    ensures Decode(s) == Replace(Replace(Replace(Replace(Replace(Replace(Replace(Replace(Replace(Replace(Replace(Replace(s,
      "SP_", ""), "_ZC", " ZC Thresh."), "_LL", " Limit Low"), "_LH", " Limit High"), "_FD", " Freq. Div."),
      "_OF", " Offset"), "_HF", " Holdoff"), "TAC_G", "TAC Gain"), "TAC_R", "TAC Range"), "_TC", " Time/Chan"),
      "_TD", " Time/Div"), "_FQ", " Threshold")
  {
  }

  /** A replacement whose pattern has a character the string lacks changes nothing. */
  lemma {:induction false} Untouched(s: string, pat: string, rep: string, c: char)
    requires |pat| > 0 && c in pat && c !in s
    ensures Replace(s, pat, rep) == s
  {
    MissingCharAbsent(s, pat, c);
  }

  /** A replacement whose pattern starts the string and does not occur in what follows. */
  lemma {:induction false} ReplacedOnce(s: string, pat: string, rep: string, c: char)
    requires |pat| > 0 && StartsWith(s, pat) && c in pat && c !in s[|pat|..]
    ensures Replace(s, pat, rep) == rep + s[|pat|..]
  {
    Untouched(s[|pat|..], pat, rep, c);
  }

  /** Each of the twelve patterns contains '_'. */
  lemma PatternsHaveUnderscore()
    ensures forall i :: 0 <= i < |Patterns| ==> '_' in Patterns[i]
  {
  }

  /** Every pattern contains '_', so a string without one is left alone by all twelve steps. */
  lemma {:induction false} DecodeWithoutUnderscore(s: string)
    requires '_' !in s
    ensures Decode(s) == s
  {
    assert forall i :: 0 <= i < |Patterns| ==> !Contains(s, Patterns[i]) by {
      PatternsHaveUnderscore();
      forall i | 0 <= i < |Patterns|
        ensures !Contains(s, Patterns[i])
      {
        MissingCharAbsent(s, Patterns[i], '_');
      }
    }
  }

  /**
    When the first step gives `name`, steps two to eight find a letter of
    their pattern missing from `name`, step nine gives `text`, and `text`
    has no '_', then the label is `text`.
  */
  lemma {:induction false} OnlyFirstAndNinthStepsChange(key: string, name: string, text: string)
    requires Replace(key, "SP_", "") == name
    requires 'Z' !in name && 'L' !in name && 'H' !in name && 'F' !in name && 'O' !in name && 'G' !in name
    requires Replace(name, "TAC_R", "TAC Range") == text
    requires '_' !in text
    ensures Decode(key) == text
  {
    var s2 := Replace(name, "_ZC", " ZC Thresh.");
    assert s2 == name by { Untouched(name, "_ZC", " ZC Thresh.", 'Z'); }
    var s3 := Replace(s2, "_LL", " Limit Low");
    assert s3 == name by { Untouched(name, "_LL", " Limit Low", 'L'); }
    var s4 := Replace(s3, "_LH", " Limit High");
    assert s4 == name by { Untouched(name, "_LH", " Limit High", 'H'); }
    var s5 := Replace(s4, "_FD", " Freq. Div.");
    assert s5 == name by { Untouched(name, "_FD", " Freq. Div.", 'F'); }
    var s6 := Replace(s5, "_OF", " Offset");
    assert s6 == name by { Untouched(name, "_OF", " Offset", 'O'); }
    var s7 := Replace(s6, "_HF", " Holdoff");
    assert s7 == name by { Untouched(name, "_HF", " Holdoff", 'H'); }
    var s8 := Replace(s7, "TAC_G", "TAC Gain");
    assert s8 == name by { Untouched(name, "TAC_G", "TAC Gain", 'G'); }
    var s10 := Replace(text, "_TC", " Time/Chan");
    assert s10 == text by { Untouched(text, "_TC", " Time/Chan", '_'); }
    var s11 := Replace(s10, "_TD", " Time/Div");
    assert s11 == text by { Untouched(text, "_TD", " Time/Div", '_'); }
    var s12 := Replace(s11, "_FQ", " Threshold");
    assert s12 == text by { Untouched(text, "_FQ", " Threshold", '_'); }
    DecodeSteps(key);
  }

  /**
    When the first two steps give `name` and then `text`, and `text` has
    no '_', then the label is `text`.
  */
  lemma {:induction false} OnlyFirstTwoStepsChange(key: string, name: string, text: string)
    requires Replace(key, "SP_", "") == name
    requires Replace(name, "_ZC", " ZC Thresh.") == text
    requires '_' !in text
    ensures Decode(key) == text
  {
    var s3 := Replace(text, "_LL", " Limit Low");
    assert s3 == text by { Untouched(text, "_LL", " Limit Low", '_'); }
    var s4 := Replace(s3, "_LH", " Limit High");
    assert s4 == text by { Untouched(text, "_LH", " Limit High", '_'); }
    var s5 := Replace(s4, "_FD", " Freq. Div.");
    assert s5 == text by { Untouched(text, "_FD", " Freq. Div.", '_'); }
    var s6 := Replace(s5, "_OF", " Offset");
    assert s6 == text by { Untouched(text, "_OF", " Offset", '_'); }
    var s7 := Replace(s6, "_HF", " Holdoff");
    assert s7 == text by { Untouched(text, "_HF", " Holdoff", '_'); }
    var s8 := Replace(s7, "TAC_G", "TAC Gain");
    assert s8 == text by { Untouched(text, "TAC_G", "TAC Gain", '_'); }
    var s9 := Replace(s8, "TAC_R", "TAC Range");
    assert s9 == text by { Untouched(text, "TAC_R", "TAC Range", '_'); }
    var s10 := Replace(s9, "_TC", " Time/Chan");
    assert s10 == text by { Untouched(text, "_TC", " Time/Chan", '_'); }
    var s11 := Replace(s10, "_TD", " Time/Div");
    assert s11 == text by { Untouched(text, "_TD", " Time/Div", '_'); }
    var s12 := Replace(s11, "_FQ", " Threshold");
    assert s12 == text by { Untouched(text, "_FQ", " Threshold", '_'); }
    DecodeSteps(key);
  }

  /** The first and ninth steps on `SP_TAC_R` + `suffix`. */
  lemma {:induction false} TacRangeKeySteps(suffix: string)
    requires '_' !in suffix && 'S' !in suffix
    ensures Replace("SP_TAC_R" + suffix, "SP_", "") == "TAC_R" + suffix
    ensures Replace("TAC_R" + suffix, "TAC_R", "TAC Range") == "TAC Range" + suffix
  {
    var key, name := "SP_TAC_R" + suffix, "TAC_R" + suffix;
    assert Replace(key, "SP_", "") == name by {
      assert key[3..] == name && 'S' !in name;
      ReplacedOnce(key, "SP_", "", 'S');
    }
    assert Replace(name, "TAC_R", "TAC Range") == "TAC Range" + suffix by {
      assert name[5..] == suffix;
      ReplacedOnce(name, "TAC_R", "TAC Range", '_');
    }
  }

  /** The letters the other steps look for are missing from `TAC_R` + `suffix` and `TAC Range` + `suffix`. */
  lemma {:induction false} TacRangeKeyLetters(suffix: string)
    requires '_' !in suffix && 'Z' !in suffix && 'L' !in suffix
    requires 'F' !in suffix && 'O' !in suffix && 'H' !in suffix && 'G' !in suffix
    ensures 'Z' !in "TAC_R" + suffix && 'L' !in "TAC_R" + suffix && 'H' !in "TAC_R" + suffix
    ensures 'F' !in "TAC_R" + suffix && 'O' !in "TAC_R" + suffix && 'G' !in "TAC_R" + suffix
    ensures '_' !in "TAC Range" + suffix
  {
  }

  /**
    A key `SP_TAC_R` + `suffix`, where nothing after the prefix can match
    another pattern, loses its prefix and is then changed by the `TAC_R`
    step alone.
  */
  lemma {:induction false} DecodeTacRangeKey(suffix: string)
    requires '_' !in suffix && 'S' !in suffix && 'Z' !in suffix && 'L' !in suffix
    requires 'F' !in suffix && 'O' !in suffix && 'H' !in suffix && 'G' !in suffix
    ensures Decode("SP_TAC_R" + suffix) == "TAC Range" + suffix
  {
    TacRangeKeySteps(suffix);
    TacRangeKeyLetters(suffix);
    OnlyFirstAndNinthStepsChange("SP_TAC_R" + suffix, "TAC_R" + suffix, "TAC Range" + suffix);
  }

  /** `bh_decode('SP_TAC_R') == 'TAC Range'` */
  lemma DecodeTacRange()
    ensures Decode("SP_TAC_R") == "TAC Range"
  {
    assert "SP_TAC_R" + "" == "SP_TAC_R" && "TAC Range" + "" == "TAC Range";
    DecodeTacRangeKey("");
  }

  /** The first two steps on `SP_` + `unit` + `_ZC`. */
  lemma {:induction false} ZeroCrossKeySteps(unit: string)
    requires '_' !in unit && 'S' !in unit
    ensures Replace("SP_" + unit + "_ZC", "SP_", "") == unit + "_ZC"
    ensures Replace(unit + "_ZC", "_ZC", " ZC Thresh.") == unit + " ZC Thresh."
  {
    var key, name := "SP_" + unit + "_ZC", unit + "_ZC";
    assert Replace(key, "SP_", "") == name by {
      assert key[3..] == name;
      assert 'S' !in name by {
        assert forall c :: c in name ==> c in unit || c in "_ZC";
      }
      ReplacedOnce(key, "SP_", "", 'S');
    }
    assert Replace(name, "_ZC", " ZC Thresh.") == unit + " ZC Thresh." by {
      ReplaceSkipsPrefix(unit, "_ZC", "_ZC", " ZC Thresh.");
      ReplacedOnce("_ZC", "_ZC", " ZC Thresh.", 'Z');
      assert "_ZC"[3..] == [];
    }
  }

  lemma {:induction false} ZeroCrossLabelLetters(unit: string)
    requires '_' !in unit
    ensures '_' !in unit + " ZC Thresh."
  {
    var text := unit + " ZC Thresh.";
    assert forall c :: c in text ==> c in unit || c in " ZC Thresh.";
  }

  /** A key `SP_` + `unit` + `_ZC`, with no '_' or 'S' in `unit`, becomes `unit` + ` ZC Thresh.`. */
  lemma {:induction false} DecodeZeroCrossKey(unit: string)
    requires '_' !in unit && 'S' !in unit
    ensures Decode("SP_" + unit + "_ZC") == unit + " ZC Thresh."
  {
    ZeroCrossKeySteps(unit);
    ZeroCrossLabelLetters(unit);
    OnlyFirstTwoStepsChange("SP_" + unit + "_ZC", unit + "_ZC", unit + " ZC Thresh.");
  }

  /** `bh_decode('SP_CFD_ZC') == 'CFD ZC Thresh.'` */
  lemma DecodeCfdZeroCross()
    ensures Decode("SP_CFD_ZC") == "CFD ZC Thresh."
  {
    assert "SP_" + "CFD" + "_ZC" == "SP_CFD_ZC" && "CFD" + " ZC Thresh." == "CFD ZC Thresh.";
    DecodeZeroCrossKey("CFD");
  }
}
