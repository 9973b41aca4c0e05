/** Canonical resource identities and their order. */
module Resources {
  import opened Collections

  type ResourceId = string

  const MAX_RESOURCE_ID_LENGTH := 63

  predicate IsAllowedChar(c: char) {
    'a' <= c <= 'z' || 'A' <= c <= 'Z' || '0' <= c <= '9' || c in ['.', '_', ':', '-']
  }

  /** Canonical form: 1 to 63 allowed characters, no "..", no leading or trailing '.' or '-'. */
  predicate IsValidResourceId(text: string) {
    && 0 < |text| <= MAX_RESOURCE_ID_LENGTH
    && text[0] != '.' && text[0] != '-' && text[|text| - 1] != '.' && text[|text| - 1] != '-'
    && (forall i :: 0 <= i < |text| ==> IsAllowedChar(text[i]))
    && (forall i :: 0 < i < |text| ==> !(text[i - 1] == '.' && text[i] == '.'))
  }

  /** `operator<` on strings: lexicographic order of the characters. */
  predicate IdLess(a: ResourceId, b: ResourceId) {
    LexLess((x: char, y: char) => x < y, a, b)
  }

  lemma IdOrder()
    ensures StrictTotal(IdLess)
  {
    LexStrictTotal((x: char, y: char) => x < y, IdLess);
  }

  /** Member signatures compare lexicographically by identity. */
  predicate SignatureLess(a: seq<ResourceId>, b: seq<ResourceId>) {
    LexLess(IdLess, a, b)
  }

  lemma SignatureOrder()
    ensures StrictTotal(SignatureLess)
  {
    IdOrder();
    LexStrictTotal(IdLess, SignatureLess);
  }

  /** Identities sorted strictly: the canonical node order of a topology. */
  ghost predicate StrictlySorted(ids: seq<ResourceId>) {
    forall i, j :: 0 <= i < j < |ids| ==> IdLess(ids[i], ids[j])
  }

  /** Identities in ascending order, one for each index. */
  function Letters(i: nat): ResourceId { seq(i, _ => 'a') }

  lemma {:induction false} PrefixLess(a: ResourceId, b: ResourceId)
    requires |a| < |b| && (forall i :: 0 <= i < |a| ==> a[i] == 'a') && (forall i :: 0 <= i < |b| ==> b[i] == 'a')
    ensures IdLess(a, b)
  {
    if a != [] { PrefixLess(a[1..], b[1..]); }
  }
}
