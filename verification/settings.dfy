/**
 The extraction-quality setting of `app.py`: the three options of the sidebar slider, the DPI
 each one suggests, and the lower-case level name stored for the OCR step.
 */
module Settings {
  import Strings

  datatype QualityLevel = Fast | Standard | HighQuality

  /** The option text shown on the slider. */
  function OptionName(q: QualityLevel): string {
    match q
    case Fast => "Fast"
    case Standard => "Standard"
    case HighQuality => "High Quality"
  }

  /** `dpi_options[extraction_quality]`: the default of the DPI slider for each level. */
  function DefaultDpi(q: QualityLevel): (dpi: nat)
    ensures 72 <= dpi <= 600
    ensures q == Fast ==> dpi == 150
    ensures q == Standard ==> dpi == 300
    ensures q == HighQuality ==> dpi == 400
  {
    match q
    case Fast => 150
    case Standard => 300
    case HighQuality => 400
  }

  /** A better level never suggests a lower resolution. */
  predicate AtMost(p: QualityLevel, q: QualityLevel) {
    p == Fast || q == HighQuality || p == q
  }

  lemma DefaultDpiMonotone(p: QualityLevel, q: QualityLevel)
    requires AtMost(p, q)
    ensures DefaultDpi(p) <= DefaultDpi(q)
  {
  }

  /** `extraction_quality.lower().replace(" quality", "")`. */
  function OcrQuality(q: QualityLevel): string {
    Strings.ReplaceAll(Strings.Lower(OptionName(q)), QualitySuffix, "")
  }

  const QualitySuffix: string := " quality"

  /** The stored level names are "fast", "standard" and "high": only the third option contains
      the suffix that is cut. */
  lemma OcrQualityNames()
    ensures OcrQuality(Fast) == "fast"
    ensures OcrQuality(Standard) == "standard"
    ensures OcrQuality(HighQuality) == "high"
  {
    FastName();
    StandardName();
    HighName();
  }

  lemma FastName()
    ensures OcrQuality(Fast) == "fast"
  {
    assert Strings.Lower("Fast") == "fast";
    Strings.ReplaceSkipsFree("fast", "", QualitySuffix, "");
    assert "fast" + "" == "fast";
  }

  lemma StandardName()
    ensures OcrQuality(Standard) == "standard"
  {
    assert Strings.Lower("Standard") == "standard";
    Strings.ReplaceSkipsFree("standard", "", QualitySuffix, "");
    assert "standard" + "" == "standard";
  }

  lemma HighName()
    ensures OcrQuality(HighQuality) == "high"
  {
    assert Strings.Lower("High Quality") == "high" + QualitySuffix;
    Strings.ReplaceSkipsFree("high", QualitySuffix, QualitySuffix, "");
    assert Strings.StartsWith(QualitySuffix, QualitySuffix);
    assert Strings.ReplaceAll(QualitySuffix, QualitySuffix, "") == "";
  }

  /** Distinct levels are stored under distinct names, so the level can be recovered. */
  lemma OcrQualityInjective(p: QualityLevel, q: QualityLevel)
    requires OcrQuality(p) == OcrQuality(q)
    ensures p == q
  {
    OcrQualityNames();
  }
}
