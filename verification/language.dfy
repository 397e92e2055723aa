/**
 The language test on the result step: a text is Arabic (`"ar"`) as soon as
 one of its characters lies in the Arabic block, and English (`"en"`)
 otherwise.
 */
module Language {
  import opened Text
  import Cleaner

  /** `re.search(r'[\u0600-\u06FF]', text)` found a match. */
  function ContainsArabic(s: string): (found: bool)
    ensures found <==> exists i :: 0 <= i < |s| && InArabicBlock(s[i])
  {
    if s == [] then false
    else if InArabicBlock(s[0]) then true
    else
      assert forall i :: 1 <= i < |s| ==> s[i] == s[1..][i - 1];
      ContainsArabic(s[1..])
  }

  /** The language code chosen for the current text. */
  function DetectLanguage(text: string): (code: string)
    ensures code == "ar" <==> exists i :: 0 <= i < |text| && InArabicBlock(text[i])
    ensures code == "en" <==> forall i :: 0 <= i < |text| ==> !InArabicBlock(text[i])
  {
    if ContainsArabic(text) then "ar" else "en"
  }

  /** The cleaner never changes the detected language: it keeps every
      Arabic-block character and introduces none. */
  lemma DetectAfterClean(text: string)
    ensures DetectLanguage(Cleaner.CleanArabicText(text)) == DetectLanguage(text)
  {
    var cleaned := Cleaner.CleanArabicText(text);
    Cleaner.CleanKeepsAllowed(text);
    if ContainsArabic(text) {
      var i :| 0 <= i < |text| && InArabicBlock(text[i]);
      var c := text[i];
      ArabicIsNotWs(c);
      assert c in text && Cleaner.Allowed(c);
      assert c in cleaned;
    } else {
      forall j | 0 <= j < |cleaned| ensures !InArabicBlock(cleaned[j]) {
        var c := cleaned[j];
        assert c in cleaned;
        assert c == ' ' || c in text;
      }
    }
  }
}
