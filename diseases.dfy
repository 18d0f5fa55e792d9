/** The static five-entry disease catalog (data/diseases.ts). Both the search
    view and the simulated classifier read it; nothing writes it. */
module Catalog {
  import opened Types

  // The display texts that the search reads. The descriptions are written as
  // concatenations of short literals; each denotes exactly the catalog's text.

  const NewcastleName := "Newcastle Disease"
  const AvianFluName := "Avian Influenza"
  const FowlPoxName := "Fowl Pox"
  const CoccidiosisName := "Coccidiosis"
  const HealthyName := "Healthy"

  const NewcastleDescription := "A highly contagious " + "viral infection " + "affecting the " + "respiratory, " + "nervous, and " + "digestive systems " + "of birds."

  const AvianFluDescription := "A viral infection " + "that can range " + "from mild to severe, " + "affecting poultry " + "worldwide."

  const FowlPoxDescription := "A viral disease " + "causing skin lesions " + "and respiratory " + "symptoms in poultry."

  const CoccidiosisDescription := "A parasitic disease " + "affecting the " + "intestinal tract, " + "common in young birds."

  const HealthyDescription := "No signs of disease " + "detected. The bird " + "appears to be " + "in good health."

  const Newcastle := Disease(
    "newcastle",
    NewcastleName,
    NewcastleDescription,
    ["Respiratory distress", "Nervous signs", "Diarrhea", "Reduced egg production"],
    "Vaccination and supportive care. Quarantine affected birds immediately.",
    High)

  const AvianFlu := Disease(
    "avian-flu",
    AvianFluName,
    AvianFluDescription,
    ["Sudden death", "Respiratory symptoms", "Decreased egg production", "Facial swelling"],
    "Biosecurity measures, vaccination in some cases, and rapid containment.",
    High)

  const FowlPox := Disease(
    "fowl-pox",
    FowlPoxName,
    FowlPoxDescription,
    ["Skin lesions", "Scabs on comb and wattles", "Respiratory difficulty", "Reduced feed intake"],
    "Vaccination and supportive care. Remove scabs gently and apply antiseptic.",
    Medium)

  const Coccidiosis := Disease(
    "coccidiosis",
    CoccidiosisName,
    CoccidiosisDescription,
    ["Bloody diarrhea", "Weakness", "Poor growth", "Dehydration"],
    "Anticoccidial medications and improved sanitation practices.",
    Medium)

  const Healthy := Disease(
    "healthy",
    HealthyName,
    HealthyDescription,
    ["Active behavior", "Good appetite", "Normal feather condition", "Regular egg production"],
    "Continue regular health monitoring and maintain good hygiene practices.",
    Low)

  /** The catalog, in display order. */
  const Diseases: seq<Disease> := [Newcastle, AvianFlu, FowlPox, Coccidiosis, Healthy]

  /** The catalog holds exactly these five entries, in this order. */
  lemma CatalogIds()
    ensures |Diseases| == 5
    ensures Diseases[0].id == "newcastle" && Diseases[1].id == "avian-flu"
    ensures Diseases[2].id == "fowl-pox" && Diseases[3].id == "coccidiosis"
    ensures Diseases[4].id == "healthy"
  {
  }

  /** No two catalog entries share an id. */
  lemma CatalogIdsDistinct()
    ensures forall i, j :: 0 <= i < j < |Diseases| ==> Diseases[i].id != Diseases[j].id
  {
  }

  /** The severity of every catalog entry. */
  lemma CatalogSeverities()
    ensures Diseases[0].severity == High && Diseases[1].severity == High
    ensures Diseases[2].severity == Medium && Diseases[3].severity == Medium
    ensures Diseases[4].severity == Low
  {
  }

  /** Every entry lists exactly four symptoms. */
  lemma CatalogFourSymptoms()
    ensures forall d :: d in Diseases ==> |d.symptoms| == 4
  {
  }

  /** The index the simulated classifier draws: `floor(r * length)` for a
      uniform draw `0 <= r < 1`; the catalog is non-empty, so the index is
      always in bounds. */
  function DrawIndex(r: real): (i: int)
    requires 0.0 <= r < 1.0
    ensures 0 <= i < |Diseases|
  {
    (r * |Diseases| as real).Floor
  }
}
