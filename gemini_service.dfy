/** The query sanitiser of the report service: strip suspicious characters, then cap the length. */
module GeminiService {
  import opened Seqs

  /** The characters of the regular-expression class `[<>{}[\\]`. The `]` closes the class and is not in it. */
  const Suspicious: set<char> := {'<', '>', '{', '}', '[', '\\'}

  const MaxQueryLength: nat := 500

  predicate Harmless(c: char)
  {
    c !in Suspicious
  }

  /** `text.replace(/[<>{}[\\]/g, '').substring(0, 500)`. */
  function SanitizeInput(text: string): (r: string)
    ensures |r| <= MaxQueryLength
    ensures forall c :: c in r ==> c !in Suspicious
    ensures IsSubseq(r, text)
    ensures |r| == if Count(Harmless, text) <= MaxQueryLength then Count(Harmless, text) else MaxQueryLength
  {
    var cleaned := Filter(Harmless, text);
    if |cleaned| <= MaxQueryLength then cleaned
    else
      SubseqPrefix(cleaned, text, MaxQueryLength);
      assert forall c :: c in cleaned[..MaxQueryLength] ==> c in cleaned;
      cleaned[..MaxQueryLength]
  }

  /** The result is the first 500 characters of the input once the suspicious ones are removed, in order. */
  lemma SanitizeIsTruncatedFilter(text: string, k: nat)
    requires k < |SanitizeInput(text)|
    ensures SanitizeInput(text)[k] == Filter(Harmless, text)[k]
  {
  }

  /** Sanitising twice is sanitising once. */
  lemma SanitizeIdempotent(text: string)
    ensures SanitizeInput(SanitizeInput(text)) == SanitizeInput(text)
  {
    FilterAll(Harmless, SanitizeInput(text));
  }

  /** A short input with no suspicious character passes through unchanged. */
  lemma SanitizeKeepsCleanInput(text: string)
    requires |text| <= MaxQueryLength
    requires forall c :: c in text ==> c !in Suspicious
    ensures SanitizeInput(text) == text
  {
    FilterAll(Harmless, text);
  }

  /** Closing brackets are not removed: in a short input every `]` survives, with its multiplicity. */
  lemma ClosingBracketKept(text: string)
    requires |text| <= MaxQueryLength
    ensures multiset(SanitizeInput(text))[']'] == multiset(text)[']']
  {
  }

  /** Longer input is cut after 500 kept characters, so extra text at the end never reaches the query. */
  lemma SanitizeIgnoresTailAfterCap(text: string, tail: string)
    requires Count(Harmless, text) >= MaxQueryLength
    ensures SanitizeInput(text + tail) == SanitizeInput(text)
  {
    FilterConcat(Harmless, text, tail);
    var a := Filter(Harmless, text);
    assert (a + Filter(Harmless, tail))[..MaxQueryLength] == a[..MaxQueryLength];
  }
}
