/** Worked examples of the DOI utilities on concrete inputs. */
module DoiExamples {
  import opened Wrappers
  import opened Text
  import opened DoiLookup

  /** The worked example: JATS tags dropped and `&amp;` decoded. */
  lemma CleanAbstractExample()
    ensures CleanAbstract("<jats:p>Some &amp; text</jats:p>") == "Some & text"
  {
    ExampleTagsStripped();
    ExampleAmpersandDecoded();
    SpacingKept();
  }

  lemma ExampleTagsStripped()
    ensures StripAllTags("<jats:p>Some &amp; text</jats:p>") == "Some &amp; text"
  {
    ExampleParagraph();
    ExampleBodyHasNoTag();
    JatsParagraphStripped("Some &amp; text");
  }

  lemma ExampleParagraph()
    ensures "<jats:p>Some &amp; text</jats:p>" == "<jats:p>" + "Some &amp; text" + "</jats:p>"
  {
  }

  lemma ExampleBodyHasNoTag()
    ensures '<' !in "Some &amp; text"
  {
  }

  lemma ExampleAmpersandDecoded()
    ensures DecodeEntities("Some &amp; text") == "Some & text"
  {
    ExampleEscapedSplit();
    ExampleDecodedSplit();
    ExampleSidesPlain();
    AmpersandEntityDecoded("Some ", " text");
  }

  lemma ExampleEscapedSplit()
    ensures "Some &amp; text" == "Some " + "&amp;" + " text"
  {
  }

  lemma ExampleDecodedSplit()
    ensures "Some & text" == "Some " + "&" + " text"
  {
  }

  lemma ExampleSidesPlain()
    ensures '&' !in "Some " && '&' !in " text" && " text"[0] == ' '
  {
  }

  lemma SpacingKept()
    ensures Trim(CollapseSpace("Some & text")) == "Some & text"
  {
    var s := "Some & text";
    assert PlainSpaces(s) && SingleSpaced(s);
    CollapseSpaceFixed(s);
    TrimOfTrimmed(s);
  }

  /** Decoding is a single pass per entity: `&amp;lt;` becomes `&lt;`, not `<`. */
  lemma DecodeOnePass()
    ensures DecodeEntities("&amp;lt;") == "&lt;"
  {
    EscapedLtParts();
    AmpersandEntityDecoded([], "lt;");
  }

  lemma EscapedLtParts()
    ensures "&amp;lt;" == [] + "&amp;" + "lt;"
    ensures "&lt;" == [] + "&" + "lt;"
    ensures '&' !in "lt;" && "lt;"[0] == 'l'
  {
  }

  /** A bare DOI is valid. */
  lemma ValidBareDoi()
    ensures IsValidDoi("10.1234/abc")
  {
    BareDoiClean();
    BareDoiPrefix();
    BareDoiSuffix();
  }

  lemma BareDoiSuffix()
    ensures NonSpaceRun("10.1234/abc", 8) == 3
  {
    var d := "10.1234/abc";
    assert !IsSpace(d[8]) && !IsSpace(d[9]) && !IsSpace(d[10]);
  }

  lemma BareDoiClean()
    ensures CleanDoi("10.1234/abc") == "10.1234/abc"
  {
    TrimOfTrimmed("10.1234/abc");
  }

  lemma BareDoiPrefix()
    ensures DoiPrefixEnd("10.1234/abc", 0) == Some(8)
  {
    DigitRunIs("10.1234/abc", 3, 4);
  }

  /** A DOI given as a doi.org URL is valid. */
  lemma ValidDoiUrl()
    ensures IsValidDoi("https://doi.org/10.1234/abc")
  {
    var u := "https://doi.org/10.1234/abc";
    assert u[..16] == HttpsDoiOrg && u[16..] == "10.1234/abc";
    assert CleanDoi(u) == CleanDoi("10.1234/abc");
    ValidBareDoi();
  }

  /** Text without the `10.` prefix, and the empty string, are not valid. */
  lemma InvalidDois()
    ensures !IsValidDoi("not-a-doi")
    ensures !IsValidDoi("")
  {
    NotADoiClean();
    NotADoiPrefix();
  }

  lemma NotADoiClean()
    ensures CleanDoi("not-a-doi") == "not-a-doi"
  {
    TrimOfTrimmed("not-a-doi");
  }

  lemma NotADoiPrefix()
    ensures DoiPrefixEnd("not-a-doi", 0).None?
  {
    var s := "not-a-doi";
    assert s[0..3][0] == s[0] == 'n';
  }

  /** A `doi:` label is matched first, and the sentence's closing full stop is dropped. */
  lemma ExtractDoiExample()
    ensures ExtractDoi("doi:10.1234/abc.") == Some("10.1234/abc")
  {
    LabelledCapture();
    TidyExample();
  }

  lemma LabelledCapture()
    ensures FirstPatternMatch("doi:10.1234/abc.", Patterns) == Some("10.1234/abc.")
  {
    LabelledMatch();
    LabelledSlice();
  }

  lemma LabelledSlice()
    ensures "doi:10.1234/abc."[4..16] == "10.1234/abc."
  {
  }

  lemma LabelledMatch()
    ensures MatchAt(DoiColon, "doi:10.1234/abc.", 0) == Some((4, 16))
  {
    LabelledMarker();
    LabelledNoGap();
    LabelledCaptureEnd();
  }

  lemma LabelledMarker()
    ensures StartsWithIgnoreCase("doi:10.1234/abc."[0..], "doi:")
  {
    var s := "doi:10.1234/abc.";
    assert s[0..] == s;
    assert s[0] == 'd' && s[1] == 'o' && s[2] == 'i' && s[3] == ':';
  }

  lemma LabelledNoGap()
    ensures SpaceRun("doi:10.1234/abc.", 4) == 0
  {
    assert !IsSpace("doi:10.1234/abc."[4]);
  }

  lemma LabelledCaptureEnd()
    ensures CaptureEnd("doi:10.1234/abc.", 4) == Some(16)
  {
    LabelledPrefix();
    LabelledSuffix();
  }

  lemma LabelledPrefix()
    ensures DoiPrefixEnd("doi:10.1234/abc.", 4) == Some(12)
  {
    DigitRunIs("doi:10.1234/abc.", 7, 4);
  }

  lemma LabelledSuffix()
    ensures NonSpaceRun("doi:10.1234/abc.", 12) == 4
  {
    var s := "doi:10.1234/abc.";
    assert !IsSpace(s[12]) && !IsSpace(s[13]) && !IsSpace(s[14]) && !IsSpace(s[15]);
  }

  lemma DropExample()
    ensures DropTrailingPunctuation("10.1234/abc.") == "10.1234/abc"
  {
    assert "10.1234/abc."[..11] == "10.1234/abc";
  }

  lemma TidyExample()
    ensures DropTrailingPunctuation(Trim("10.1234/abc.")) == "10.1234/abc"
  {
    TrimOfTrimmed("10.1234/abc.");
    DropExample();
  }
}
