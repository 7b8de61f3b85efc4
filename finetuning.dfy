/**
 * The search-index loader: the acceptance criteria and test cases generated for a requirement
 * are paired up, each is embedded, and the pairs become documents of the search index, an
 * acceptance-criterion document followed by its test-case document.
 */
module Finetuning {
  import opened Wrappers
  import opened Text

  /** An embedding vector, as the embedding service returns it. */
  type Vector = seq<real>

  /** One document of the index. */
  datatype Document = Document(id: string, requirement: string, kind: string, content: string, contentVector: Vector)

  /** How many pairs `zip` forms: the shorter list's length. */
  function PairCount(acs: seq<string>, tcs: seq<string>): (n: nat)
    ensures n <= |acs| && n <= |tcs| && (n == |acs| || n == |tcs|)
  {
    if |acs| <= |tcs| then |acs| else |tcs|
  }

  function AcId(i: nat): string {
    "ac-" + NatToString(i)
  }

  function TcId(i: nat): string {
    "tc-" + NatToString(i)
  }

  /** The two documents of pair i: the criterion first, then its test case. */
  function PairDocuments(requirement: string, ac: string, tc: string, i: nat, embed: string -> Vector): seq<Document> {
    [Document(AcId(i), requirement, "acceptance_criteria", ac, embed(ac)),
     Document(TcId(i), requirement, "test_case", tc, embed(tc))]
  }

  /** The documents of the first n pairs, in pair order: two per pair. */
  function Documents(requirement: string, acs: seq<string>, tcs: seq<string>, n: nat, embed: string -> Vector): (docs: seq<Document>)
    requires n <= |acs| && n <= |tcs|
    ensures |docs| == 2 * n
    decreases n
  {
    if n == 0 then []
    else Documents(requirement, acs, tcs, n - 1, embed) + PairDocuments(requirement, acs[n - 1], tcs[n - 1], n - 1, embed)
  }

  /**
   * The loop of `upload_documents`: the documents it hands to the index, with the embedding
   * service as the function `embed`.
   */
  method UploadDocuments(requirement: string, acs: seq<string>, tcs: seq<string>, embed: string -> Vector)
    returns (documents: seq<Document>)
    ensures documents == Documents(requirement, acs, tcs, PairCount(acs, tcs), embed)
  {
    documents := [];
    var n := PairCount(acs, tcs);
    for i := 0 to n
      invariant documents == Documents(requirement, acs, tcs, i, embed)
    {
      var ac, tc := acs[i], tcs[i];
      var acEmb := embed(ac);
      var tcEmb := embed(tc);
      documents := documents + [Document("ac-" + NatToString(i), requirement, "acceptance_criteria", ac, acEmb)];
      documents := documents + [Document("tc-" + NatToString(i), requirement, "test_case", tc, tcEmb)];
    }
  }

  /** The document at position j of the first n pairs: even positions are criteria, odd ones their test cases. */
  lemma {:induction false} DocumentAt(requirement: string, acs: seq<string>, tcs: seq<string>, n: nat, embed: string -> Vector, j: nat)
    requires n <= |acs| && n <= |tcs| && j < 2 * n
    ensures var d := Documents(requirement, acs, tcs, n, embed)[j];
            var i := j / 2;
            d.requirement == requirement &&
            (j % 2 == 0 ==> d.id == AcId(i) && d.kind == "acceptance_criteria" && d.content == acs[i] && d.contentVector == embed(acs[i])) &&
            (j % 2 == 1 ==> d.id == TcId(i) && d.kind == "test_case" && d.content == tcs[i] && d.contentVector == embed(tcs[i]))
    decreases n
  {
    var prev := Documents(requirement, acs, tcs, n - 1, embed);
    var pair := PairDocuments(requirement, acs[n - 1], tcs[n - 1], n - 1, embed);
    assert Documents(requirement, acs, tcs, n, embed) == prev + pair;
    if j < 2 * (n - 1) {
      DocumentAt(requirement, acs, tcs, n - 1, embed, j);
      assert (prev + pair)[j] == prev[j];
    } else if j == 2 * (n - 1) {
      assert j / 2 == n - 1 && j % 2 == 0;
      assert (prev + pair)[j] == pair[0];
    } else {
      assert j == 2 * (n - 1) + 1;
      assert j / 2 == n - 1 && j % 2 == 1;
      assert (prev + pair)[j] == pair[1];
    }
  }

  /** An id names its kind and pair: "ac-" ids and "tc-" ids never meet, and the number tells the pair. */
  lemma IdsDistinct(i: nat, k: nat)
    ensures AcId(i) != TcId(k)
    ensures AcId(i) == AcId(k) ==> i == k
    ensures TcId(i) == TcId(k) ==> i == k
  {
    assert AcId(i)[0] == 'a' && TcId(k)[0] == 't';
    if AcId(i) == AcId(k) {
      assert NatToString(i) == AcId(i)[3..] == AcId(k)[3..] == NatToString(k);
      NatToStringInjective(i, k);
    }
    if TcId(i) == TcId(k) {
      assert NatToString(i) == TcId(i)[3..] == TcId(k)[3..] == NatToString(k);
      NatToStringInjective(i, k);
    }
  }

  /** No two documents of one upload share an id. */
  lemma DocumentIdsDistinct(requirement: string, acs: seq<string>, tcs: seq<string>, embed: string -> Vector, j: nat, m: nat)
    requires j < m < 2 * PairCount(acs, tcs)
    ensures var docs := Documents(requirement, acs, tcs, PairCount(acs, tcs), embed);
            docs[j].id != docs[m].id
  {
    var n := PairCount(acs, tcs);
    DocumentAt(requirement, acs, tcs, n, embed, j);
    DocumentAt(requirement, acs, tcs, n, embed, m);
    IdsDistinct(j / 2, m / 2);
    IdsDistinct(m / 2, j / 2);
  }

  // ---------------------------------------------------------------------------
  // The entry point

  /**
   * What `main` does with the parsed reply: stop when there is none (the reply was not JSON) or
   * it is empty, else take the two lists, an absent key giving the empty list.
   */
  function PlanUpload(result: Option<map<string, seq<string>>>): (r: Option<(seq<string>, seq<string>)>)
    ensures r.None? <==> (result.None? || result.value == map[])
    ensures r.Some? ==> r.value.0 == GetOrEmpty(result.value, "acceptance_criteria")
    ensures r.Some? ==> r.value.1 == GetOrEmpty(result.value, "test_cases")
  {
    match result
    case None => None
    case Some(m) =>
      if m == map[] then None
      else Some((GetOrEmpty(m, "acceptance_criteria"), GetOrEmpty(m, "test_cases")))
  }

  /** `dict.get(key, [])`. */
  function GetOrEmpty(m: map<string, seq<string>>, key: string): (r: seq<string>)
    ensures key in m ==> r == m[key]
    ensures key !in m ==> r == []
  {
    if key in m then m[key] else []
  }

  /** A reply lacking either list uploads no documents. */
  lemma MissingKeyNoDocuments(result: map<string, seq<string>>, requirement: string, embed: string -> Vector)
    requires result != map[]
    requires "acceptance_criteria" !in result || "test_cases" !in result
    ensures var plan := PlanUpload(Some(result)).value;
            Documents(requirement, plan.0, plan.1, PairCount(plan.0, plan.1), embed) == []
  {
  }
}
