/**
 * `createMedicalPrompt` (Backend/index.js): the fixed French instruction text sent to the
 * model, with the clinical context spliced in and one of two sections depending on
 * whether images are attached.
 */
module MedicalPrompt {
  import opened Wrappers

  /** The opening lines, up to and including the line feed after the context heading. */
  const Header: string :=
    "Tu es MedGemma, un assistant IA médical spécialisé dans l'analyse d'imagerie médicale.\n"
    + "\n"
    + "CONTEXTE CLINIQUE:\n"

  const NoContext: string := "Aucun contexte clinique fourni."

  /** The section used when images are attached, but its last line. */
  const ImageBody: string :=
    "\n"
    + "IMAGES MÉDICALES:\n"
    + "Tu vas analyser les images médicales fournies ci-dessous.\n"
    + "\n"
    + "INSTRUCTIONS D'ANALYSE:\n"
    + "1. Examine attentivement chaque image médicale\n"
    + "2. Identifie les structures anatomiques visibles\n"
    + "3. Recherche les anomalies ou pathologies\n"
    + "4. Corrèle avec le contexte clinique fourni\n"
    + "5. Propose un diagnostic différentiel\n"
    + "6. Évalue le niveau de confiance de tes observations\n"
    + "\n"
    + "ANALYSE DEMANDÉE:\n"
    + "- Décris les principales observations\n"
    + "- Identifie les zones d'intérêt pathologiques\n"
    + "- Propose une hypothèse diagnostique principale\n"
    + "- Indique le niveau de confiance (0-100%)\n"
    + "- Suggère des examens complémentaires si nécessaire\n"
    + "- Formule des recommandations cliniques\n"
    + "\n"
    + "FORMAT DE RÉPONSE:\n"

  const ImageLastLine: string := "Réponds de manière structurée et professionnelle en tant que radiologue expert.\n"

  /** The section used when images are attached. */
  const ImageSection: string := ImageBody + ImageLastLine

  const TextBody: string := "\nCONSULTATION SANS IMAGE:\n"

  const TextLastLine: string := "Analyse le contexte clinique fourni et fournis des recommandations.\n"

  /** The section used for a consultation without images. */
  const TextSection: string := TextBody + TextLastLine

  const Closing: string := "\n\nRÉPONSE:"

  /** `clinicalContext || 'Aucun contexte clinique fourni.'`: a missing or empty context
      is replaced. */
  function ContextText(clinicalContext: Option<string>): (r: string)
    ensures r != []
    ensures clinicalContext.Some? && clinicalContext.value != [] ==> r == clinicalContext.value
    ensures clinicalContext.None? || clinicalContext.value == [] ==> r == NoContext
  {
    if clinicalContext.Some? && clinicalContext.value != [] then clinicalContext.value else NoContext
  }

  /** Everything after the context. */
  function Tail(hasImages: bool): string {
    "\n\n" + (if hasImages then ImageSection else TextSection) + Closing
  }

  /** `createMedicalPrompt(clinicalContext, hasImages)`. */
  function CreateMedicalPrompt(clinicalContext: Option<string>, hasImages: bool): string {
    Header + ContextText(clinicalContext) + Tail(hasImages)
  }

  /** The middle of `text` between a known `head` and a known `tail`, if it has both. */
  function Between(text: string, head: string, tail: string): (r: Option<string>)
    ensures r.Some? ==> head + r.value + tail == text
  {
    if |head| + |tail| <= |text| && head <= text && text[|text| - |tail|..] == tail then
      var r := text[|head|..|text| - |tail|];
      assert text == text[..|head|] + r + text[|text| - |tail|..];
      Some(r)
    else None
  }

  lemma BetweenRoundTrip(head: string, middle: string, tail: string)
    ensures Between(head + middle + tail, head, tail) == Some(middle)
  {
    var text := head + middle + tail;
    assert text[|text| - |tail|..] == tail;
    assert text[|head|..|text| - |tail|] == middle;
  }

  /** Reads the context back out of a prompt built for `hasImages`. */
  function RecoverContext(prompt: string, hasImages: bool): (r: Option<string>)
    ensures r.Some? ==> Header + r.value + Tail(hasImages) == prompt
  {
    Between(prompt, Header, Tail(hasImages))
  }

  /** The context is recoverable from the prompt: the prompt loses nothing of it. */
  lemma RecoverContextRoundTrip(clinicalContext: Option<string>, hasImages: bool)
    ensures RecoverContext(CreateMedicalPrompt(clinicalContext, hasImages), hasImages) == Some(ContextText(clinicalContext))
  {
    BetweenRoundTrip(Header, ContextText(clinicalContext), Tail(hasImages));
  }

  /** Two contexts give the same prompt only when they read the same once defaulted. */
  lemma PromptDeterminesContext(c1: Option<string>, c2: Option<string>, hasImages: bool)
    requires CreateMedicalPrompt(c1, hasImages) == CreateMedicalPrompt(c2, hasImages)
    ensures ContextText(c1) == ContextText(c2)
  {
    RecoverContextRoundTrip(c1, hasImages);
    RecoverContextRoundTrip(c2, hasImages);
  }

  /** Two texts with a common prefix differ when what follows it differs somewhere. */
  lemma DifferAt(a: string, x: string, y: string, i: nat)
    requires i < |x| && i < |y| && x[i] != y[i]
    ensures a + x != a + y
  {
    assert (a + x)[|a| + i] == x[i];
    assert (a + y)[|a| + i] == y[i];
  }

  /** The two sections part at their first heading: `IMAGES MÉDICALES` against
      `CONSULTATION SANS IMAGE`. */
  lemma SectionsDiffer()
    ensures 3 < |Tail(true)| && 3 < |Tail(false)| && Tail(true)[3] != Tail(false)[3]
  {
    assert ImageSection[1] == 'I' by { assert ImageBody[1] == 'I'; }
    assert TextSection[1] == 'C';
  }

  /** `hasImages` always shows in the prompt: the same context gives two different prompts. */
  lemma SectionFollowsImages(clinicalContext: Option<string>)
    ensures CreateMedicalPrompt(clinicalContext, true) != CreateMedicalPrompt(clinicalContext, false)
  {
    SectionsDiffer();
    DifferAt(Header + ContextText(clinicalContext), Tail(true), Tail(false), 3);
  }
}
