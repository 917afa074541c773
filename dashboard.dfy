/** Keyword tagging of publication titles in the dashboard
    (src/Dashboard.js): the category and organism classifiers, the
    entity scan used for the offline analysis, and the offline diagram
    with the two-line node labels it is drawn with. */
module Dashboard {
  import opened Seqs
  import opened Text
  import opened Diagrams

  /** One `if` of a classifier: its keywords and the label it returns. */
  datatype Rule = Rule(keywords: seq<string>, tag: string)

  /** Index of the first rule whose keywords occur, or `|rules|` when none
      does: the `if` chain is tried top to bottom and the first hit returns. */
  function FirstMatch(rules: seq<Rule>, lower: string): (i: nat)
    ensures i <= |rules|
    ensures forall j :: 0 <= j < i ==> !Mentions(lower, rules[j].keywords)
    ensures i < |rules| ==> Mentions(lower, rules[i].keywords)
  {
    if rules == [] then 0
    else if Mentions(lower, rules[0].keywords) then 0
    else 1 + FirstMatch(rules[1..], lower)
  }

  /** The label of the first matching rule on the lower-cased title, else
      the fallback label. */
  function Classify(rules: seq<Rule>, fallback: string, title: string): string
  {
    var i := FirstMatch(rules, Lower(title));
    if i < |rules| then rules[i].tag else fallback
  }

  /** The labels are pairwise different and differ from the fallback, so
      a returned label identifies the rule that produced it. */
  ghost predicate DistinctLabels(rules: seq<Rule>, fallback: string)
  {
    && (forall i :: 0 <= i < |rules| ==> rules[i].tag != fallback)
    && (forall i, j :: 0 <= i < j < |rules| ==> rules[i].tag != rules[j].tag)
  }

  /** What a classifier returns, for any rule table with distinct labels:
      the fallback exactly when no keyword occurs, otherwise the label of
      a rule whose keyword occurs and before which no rule matched. */
  lemma ClassifyFirstMatch(rules: seq<Rule>, fallback: string, title: string)
    requires DistinctLabels(rules, fallback)
    ensures Classify(rules, fallback, title) == fallback
        <==> forall j :: 0 <= j < |rules| ==> !Mentions(Lower(title), rules[j].keywords)
    ensures forall i :: 0 <= i < |rules| && Classify(rules, fallback, title) == rules[i].tag ==>
        && Mentions(Lower(title), rules[i].keywords)
        && forall j :: 0 <= j < i ==> !Mentions(Lower(title), rules[j].keywords)
  {
    var k := FirstMatch(rules, Lower(title));
    forall i | 0 <= i < |rules| && Classify(rules, fallback, title) == rules[i].tag
      ensures Mentions(Lower(title), rules[i].keywords)
      ensures forall j :: 0 <= j < i ==> !Mentions(Lower(title), rules[j].keywords)
    {
      assert k == i;
    }
  }

  /** Classifiers look only at the lower-cased title. */
  lemma {:induction false} ClassifyIgnoresCase(rules: seq<Rule>, fallback: string, title: string)
    ensures Classify(rules, fallback, Lower(title)) == Classify(rules, fallback, title)
  {
    LowerIdempotent(title);
  }

  // ---------------------------------------------------------------- categories

  const DefaultCategory := "General Space Biology"

  /** The ten rules of `categorizePublication`, in source order. */
  const CategoryRules: seq<Rule> := [
    Rule(["bone", "osteo", "skeletal"], "Bone & Musculoskeletal"),
    Rule(["radiation", "cosmic", "particle"], "Radiation Biology"),
    Rule(["plant", "arabidopsis", "root", "leaf"], "Plant Biology"),
    Rule(["muscle", "cardiac", "heart"], "Cardiovascular & Muscle"),
    Rule(["immune", "infection", "pathogen"], "Immunology"),
    Rule(["cell", "stem", "tissue"], "Cell & Tissue Biology"),
    Rule(["gene", "dna", "rna", "protein"], "Molecular Biology"),
    Rule(["microgravity", "weightless", "gravity"], "Microgravity Effects"),
    Rule(["behavior", "cognitive", "neural"], "Neuroscience & Behavior"),
    Rule(["metabolism", "nutrition", "diet"], "Metabolism & Nutrition")
  ]

  /** The eleven category labels. */
  ghost predicate IsCategory(c: string)
  {
    c == DefaultCategory || exists i :: 0 <= i < |CategoryRules| && CategoryRules[i].tag == c
  }

  /** The ten rule labels in source order. */
  const CategoryLabels: seq<string> := [
    "Bone & Musculoskeletal", "Radiation Biology", "Plant Biology", "Cardiovascular & Muscle",
    "Immunology", "Cell & Tissue Biology", "Molecular Biology", "Microgravity Effects",
    "Neuroscience & Behavior", "Metabolism & Nutrition"]

  lemma CategoryRuleLabels()
    ensures |CategoryRules| == |CategoryLabels|
    ensures forall i :: 0 <= i < |CategoryRules| ==> CategoryRules[i].tag == CategoryLabels[i]
  {
  }

  lemma CategoryLabelsDistinct()
    ensures DistinctLabels(CategoryRules, DefaultCategory)
  {
    assert forall i :: 0 <= i < |CategoryLabels| ==> CategoryLabels[i] != DefaultCategory;
    assert forall i, j :: 0 <= i < j < |CategoryLabels| ==> CategoryLabels[i] != CategoryLabels[j];
    CategoryRuleLabels();
  }

  /** `categorizePublication(title)`. */
  function Categorize(title: string): (category: string)
    ensures IsCategory(category)
    ensures category == DefaultCategory
        <==> forall j :: 0 <= j < |CategoryRules| ==> !Mentions(Lower(title), CategoryRules[j].keywords)
    ensures forall i :: 0 <= i < |CategoryRules| && category == CategoryRules[i].tag ==>
        && Mentions(Lower(title), CategoryRules[i].keywords)
        && forall j :: 0 <= j < i ==> !Mentions(Lower(title), CategoryRules[j].keywords)
  {
    CategoryLabelsDistinct();
    ClassifyFirstMatch(CategoryRules, DefaultCategory, title);
    Classify(CategoryRules, DefaultCategory, title)
  }

  /** The first rule wins: a title mentioning bone is filed under bone,
      whatever else (radiation, plants, ...) it mentions. */
  lemma BoneComesFirst(title: string)
    requires Contains(Lower(title), "bone")
    ensures Categorize(title) == "Bone & Musculoskeletal"
  {
    assert Mentions(Lower(title), CategoryRules[0].keywords);
  }

  /** A title and its lower-cased form get the same category. */
  lemma CategorizeIgnoresCase(title: string)
    ensures Categorize(Lower(title)) == Categorize(title)
  {
    ClassifyIgnoresCase(CategoryRules, DefaultCategory, title);
  }

  // ----------------------------------------------------------------- organisms

  const DefaultOrganism := "Multiple/Other"

  /** The six rules of `extractOrganism`, in source order. */
  const OrganismRules: seq<Rule> := [
    Rule(["human", "astronaut", "crew"], "Human"),
    Rule(["mouse", "mice", "murine"], "Mouse"),
    Rule(["rat", "rodent"], "Rat"),
    Rule(["arabidopsis", "plant"], "Arabidopsis"),
    Rule(["drosophila", "fly"], "Drosophila"),
    Rule(["cell line", "culture", "in vitro"], "Cell Culture")
  ]

  /** The seven organism labels. */
  ghost predicate IsOrganism(o: string)
  {
    o == DefaultOrganism || exists i :: 0 <= i < |OrganismRules| && OrganismRules[i].tag == o
  }

  lemma OrganismLabelsDistinct()
    ensures DistinctLabels(OrganismRules, DefaultOrganism)
  {
  }

  /** `extractOrganism(title)`. */
  function ExtractOrganism(title: string): (organism: string)
    ensures IsOrganism(organism)
    ensures organism == DefaultOrganism
        <==> forall j :: 0 <= j < |OrganismRules| ==> !Mentions(Lower(title), OrganismRules[j].keywords)
    ensures forall i :: 0 <= i < |OrganismRules| && organism == OrganismRules[i].tag ==>
        && Mentions(Lower(title), OrganismRules[i].keywords)
        && forall j :: 0 <= j < i ==> !Mentions(Lower(title), OrganismRules[j].keywords)
  {
    OrganismLabelsDistinct();
    ClassifyFirstMatch(OrganismRules, DefaultOrganism, title);
    Classify(OrganismRules, DefaultOrganism, title)
  }

  /** "Human" outranks "Mouse" when a title mentions both. */
  lemma HumanBeatsMouse(title: string)
    requires Contains(Lower(title), "human") && Contains(Lower(title), "mouse")
    ensures ExtractOrganism(title) == "Human"
  {
    assert Mentions(Lower(title), OrganismRules[0].keywords);
  }

  /** Matching is on raw substrings, not words: "generation" contains
      "rat", so it is tagged as a rat study. */
  lemma RatInsideGeneration()
    ensures ExtractOrganism("generation") == "Rat"
  {
    GenerationIsLowerCase();
    // "human", "astronaut" and "crew" each hold a letter of "hsc" in turn
    // that "generation" lacks; "mouse", "mice" and "murine" each an "m"
    NoneMentioned("generation", OrganismRules[0].keywords, "hsc");
    NoneMentioned("generation", OrganismRules[1].keywords, "mmm");
    RatInGeneration();
  }

  lemma GenerationIsLowerCase()
    ensures Lower("generation") == "generation"
  {
  }

  lemma RatInGeneration()
    ensures Mentions("generation", OrganismRules[2].keywords)
  {
    assert OccursAt("generation", "rat", 4);
    ContainsIff("generation", "rat");
  }

  /** No keyword occurs when each has a letter the text lacks. */
  lemma NoneMentioned(s: string, keywords: seq<string>, letters: seq<char>)
    requires |letters| == |keywords|
    requires forall i :: 0 <= i < |keywords| ==> letters[i] in keywords[i] && letters[i] !in s
    ensures !Mentions(s, keywords)
  {
    forall i | 0 <= i < |keywords| ensures !Contains(s, keywords[i]) {
      MissingLetter(s, keywords[i], letters[i]);
    }
  }

  /** A keyword with a letter the text lacks does not occur in it. */
  lemma MissingLetter(s: string, keyword: string, c: char)
    requires c in keyword && c !in s
    ensures !Contains(s, keyword)
  {
    if Contains(s, keyword) {
      ContainsHasChars(s, keyword);
    }
  }

  // ------------------------------------------------------------------ entities

  /** One `{ term, type }` entry of `extractEntitiesFromTitle`. */
  datatype Entity = Entity(term: string, kind: string)

  function TermOf(e: Entity): string
  {
    e.term
  }

  /** `entityMap`, in key order. */
  const EntityVocabulary: seq<Entity> := [
    Entity("microgravity", "Environmental Condition"),
    Entity("radiation", "Environmental Hazard"),
    Entity("bone", "Biological System"),
    Entity("muscle", "Biological System"),
    Entity("plant", "Organism Type"),
    Entity("cell", "Biological Unit"),
    Entity("gene", "Molecular Component"),
    Entity("protein", "Molecular Component"),
    Entity("dna", "Molecular Component"),
    Entity("immune", "Biological System"),
    Entity("metabolism", "Biological Process")
  ]

  /** Object keys are distinct; here the eleven keys differ already in
      their first letter or their length. */
  lemma VocabularyTermsDistinct()
    ensures DistinctBy(EntityVocabulary, TermOf)
  {
    var v := EntityVocabulary;
    forall i, j | 0 <= i < j < |v| ensures TermOf(v[i]) != TermOf(v[j]) {
      assert (v[i].term[0], |v[i].term|) != (v[j].term[0], |v[j].term|);
    }
  }

  /** The test inside the `forEach`: the key occurs in the lower-cased title. */
  function MentionedIn(lower: string): Entity -> bool
  {
    (e: Entity) => Contains(lower, e.term)
  }

  /** What `extractEntitiesFromTitle` returns: the vocabulary entries
      whose key occurs in the lower-cased title, in vocabulary order, each
      term at most once. */
  function EntitiesIn(title: string): (entities: seq<Entity>)
    ensures |entities| <= |EntityVocabulary|
    ensures IsSubsequence(entities, EntityVocabulary)
    ensures DistinctBy(entities, TermOf)
    ensures forall e :: e in EntityVocabulary ==> (e in entities <==> Contains(Lower(title), e.term))
    ensures forall e :: e in entities ==> e in EntityVocabulary
  {
    var r := Filter(EntityVocabulary, MentionedIn(Lower(title)));
    FilterIsSubsequence(EntityVocabulary, MentionedIn(Lower(title)));
    VocabularyTermsDistinct();
    SubsequenceDistinct(r, EntityVocabulary, TermOf);
    r
  }

  /** The `forEach` of `extractEntitiesFromTitle`: walks the keys in
      order and pushes every entry whose key occurs in `lower`. */
  method PushMentioned(lower: string, keys: seq<Entity>) returns (entities: seq<Entity>)
    ensures entities == Filter(keys, MentionedIn(lower))
  {
    entities := [];
    for i := 0 to |keys|
      invariant entities == Filter(keys[..i], MentionedIn(lower))
    {
      var entry := keys[i];
      FilterSnoc(keys[..i], entry, MentionedIn(lower));
      assert keys[..i + 1] == keys[..i] + [entry];
      if Contains(lower, entry.term) {
        entities := entities + [entry];
      }
    }
    assert keys[..|keys|] == keys;
  }

  /** `extractEntitiesFromTitle(title)`. */
  method ExtractEntitiesFromTitle(title: string) returns (entities: seq<Entity>)
    ensures entities == EntitiesIn(title)
  {
    var titleLower := Lower(title);
    entities := PushMentioned(titleLower, EntityVocabulary);
  }

  // ------------------------------------------------------------------- diagram

  /** The offline diagram for titles about bone. */
  const BoneLossDiagram := Diagram("flowchart", "Bone Loss Process",
    ["Microgravity", "Osteoblast Inhibition", "Osteoclast Activation", "Bone Loss", "Fracture Risk"],
    [("Microgravity", "Osteoblast Inhibition"),
     ("Microgravity", "Osteoclast Activation"),
     ("Osteoblast Inhibition", "Bone Loss"),
     ("Osteoclast Activation", "Bone Loss"),
     ("Bone Loss", "Fracture Risk")],
    None)

  /** The offline diagram for titles about radiation. */
  const RadiationDiagram := Diagram("flowchart", "Radiation Damage Process",
    ["Space Radiation", "DNA Damage", "Cell Cycle Arrest", "Repair/Apoptosis", "Long-term Effects"],
    [("Space Radiation", "DNA Damage"),
     ("DNA Damage", "Cell Cycle Arrest"),
     ("Cell Cycle Arrest", "Repair/Apoptosis"),
     ("Repair/Apoptosis", "Long-term Effects")],
    None)

  /** The offline diagram for every other title. */
  const ResearchDiagram := Diagram("flowchart", "Research Process",
    ["Space Environment", "Biological Response", "Physiological Changes", "Health Impact"],
    [("Space Environment", "Biological Response"),
     ("Biological Response", "Physiological Changes"),
     ("Physiological Changes", "Health Impact")],
    None)

  /** The bone diagram branches at "Microgravity" and joins again at
      "Bone Loss", but draws no edge to a missing node. */
  lemma BoneLossEndpoints()
    ensures EndpointsAreNodes(BoneLossDiagram)
  {
  }

  /** The radiation diagram is a straight chain. */
  lemma RadiationIsChain()
    ensures RadiationDiagram.connections == Chain(RadiationDiagram.nodes)
  {
  }

  /** The generic diagram is a straight chain. */
  lemma ResearchIsChain()
    ensures ResearchDiagram.connections == Chain(ResearchDiagram.nodes)
  {
  }

  /** `generateDiagramData(title)`, the diagram shown when the analysis
      service cannot be reached: bone loss before radiation damage before
      the generic research process. */
  function GenerateDiagramData(title: string): (d: Diagram)
    ensures d.kind == "flowchart" && d.description == None
    ensures EndpointsAreNodes(d)
    ensures Contains(Lower(title), "bone") ==> d == BoneLossDiagram && d.title == "Bone Loss Process"
    ensures !Contains(Lower(title), "bone") && Contains(Lower(title), "radiation") ==>
      d == RadiationDiagram && d.title == "Radiation Damage Process"
    ensures !Contains(Lower(title), "bone") && !Contains(Lower(title), "radiation") ==>
      d == ResearchDiagram && d.title == "Research Process"
    ensures !Contains(Lower(title), "bone") ==> d.connections == Chain(d.nodes)
  {
    var titleLower := Lower(title);
    BoneLossEndpoints();
    RadiationIsChain();
    ResearchIsChain();
    ChainEndpoints(RadiationDiagram);
    ChainEndpoints(ResearchDiagram);
    if Contains(titleLower, "bone") then BoneLossDiagram
    else if Contains(titleLower, "radiation") then RadiationDiagram
    else ResearchDiagram
  }

  /** The two text lines a diagram node is drawn with: the first ten
      characters followed by "..." and, below, the rest, when the label is
      longer than ten characters; the whole label and nothing otherwise. */
  function LabelLines(node: string): (lines: (string, string))
    ensures |lines.0| <= 13
    ensures |node| > 10 ==> |lines.0| == 13
    ensures |node| > 10 <==> lines.1 != ""
    ensures |node| > 10 ==> EndsWith(lines.0, "...")
    ensures (if |node| > 10 then lines.0[..|lines.0| - 3] else lines.0) + lines.1 == node
  {
    if |node| > 10 then (node[..10] + "...", node[10..]) else (node, "")
  }
}
