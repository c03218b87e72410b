/** The embedding gateway: the text cleaning `get_embedding` does before it asks the
    embedding model for a vector. The model itself is a parameter (`provider`) that
    returns a vector or `None` (model not loaded, or an exception while encoding). */
module Embedding {
  import opened Common

  /** Python's `str.isspace`, the characters `str.strip()` removes. */
  predicate IsSpace(c: char)
  {
    || c == ' ' || ('\t' <= c <= '\r') || ('\U{1C}' <= c <= '\U{1F}')
    || c == '\U{85}' || c == '\U{A0}' || c == '\U{1680}' || ('\U{2000}' <= c <= '\U{200A}')
    || c == '\U{2028}' || c == '\U{2029}' || c == '\U{202F}' || c == '\U{205F}' || c == '\U{3000}'
  }

  /** `text.replace("\n", " ")`. */
  function ReplaceNewlines(text: string): (r: string)
    ensures |r| == |text|
    ensures forall i :: 0 <= i < |text| ==> r[i] == (if text[i] == '\n' then ' ' else text[i])
  {
    seq(|text|, i requires 0 <= i < |text| => if text[i] == '\n' then ' ' else text[i])
  }

  /** The first position at or after `k` that is not whitespace (or the end). */
  function SpaceEnd(text: string, k: nat): (n: nat)
    requires k <= |text|
    ensures k <= n <= |text|
    ensures forall i :: k <= i < n ==> IsSpace(text[i])
    ensures n < |text| ==> !IsSpace(text[n])
    decreases |text| - k
  {
    if k < |text| && IsSpace(text[k]) then SpaceEnd(text, k + 1) else k
  }

  /** The end of `text[..k]` once its trailing whitespace is dropped. */
  function TrimEnd(text: string, k: nat): (n: nat)
    requires k <= |text|
    ensures n <= k
    ensures forall i :: n <= i < k ==> IsSpace(text[i])
    ensures n > 0 ==> !IsSpace(text[n - 1])
  {
    if k > 0 && IsSpace(text[k - 1]) then TrimEnd(text, k - 1) else k
  }

  /** Drops leading whitespace. */
  function StripLeft(text: string): string
  {
    text[SpaceEnd(text, 0)..]
  }

  /** Drops trailing whitespace. */
  function StripRight(text: string): string
  {
    text[..TrimEnd(text, |text|)]
  }

  /** `text.replace("\n", " ").strip()`: never longer than the text, and what is
      left starts and ends with a character that is not whitespace. */
  function Clean(text: string): (r: string)
    ensures |r| <= |text|
    ensures r != [] ==> !IsSpace(r[0]) && !IsSpace(r[|r| - 1])
  {
    StripRight(StripLeft(ReplaceNewlines(text)))
  }

  /** Cleaning only cuts whitespace off the two ends of the text (with newlines
      turned into spaces), and what it keeps starts and ends with a character that
      is not whitespace. */
  lemma CleanSlice(text: string)
    ensures var c := Clean(text);
            var t := ReplaceNewlines(text);
            exists lo, hi :: 0 <= lo <= hi <= |t| && c == t[lo..hi] &&
              (forall i :: 0 <= i < lo ==> IsSpace(t[i])) &&
              (forall i :: hi <= i < |t| ==> IsSpace(t[i])) &&
              (lo < hi ==> !IsSpace(t[lo]) && !IsSpace(t[hi - 1]))
  {
    var lo, hi := CleanBounds(text);
  }

  /** The bounds of the slice `CleanSlice` speaks of. */
  lemma CleanBounds(text: string) returns (lo: nat, hi: nat)
    ensures var t := ReplaceNewlines(text);
            && lo <= hi <= |t| && Clean(text) == t[lo..hi]
            && (forall i :: 0 <= i < lo ==> IsSpace(t[i]))
            && (forall i :: hi <= i < |t| ==> IsSpace(t[i]))
            && (lo < hi ==> !IsSpace(t[lo]) && !IsSpace(t[hi - 1]))
  {
    lo, hi := StripBounds(ReplaceNewlines(text));
  }

  /** Stripping both ends of a text leaves the slice between its leading and its
      trailing whitespace. */
  lemma StripBounds(t: string) returns (lo: nat, hi: nat)
    ensures && lo <= hi <= |t| && StripRight(StripLeft(t)) == t[lo..hi]
            && (forall i :: 0 <= i < lo ==> IsSpace(t[i]))
            && (forall i :: hi <= i < |t| ==> IsSpace(t[i]))
            && (lo < hi ==> !IsSpace(t[lo]) && !IsSpace(t[hi - 1]))
  {
    lo := SpaceEnd(t, 0);
    var l := t[lo..];
    var e := TrimEnd(l, |l|);
    hi := lo + e;
    forall i | hi <= i < |t| ensures IsSpace(t[i]) {
      assert t[i] == l[i - lo];
    }
    if 0 < e {
      assert t[hi - 1] == l[e - 1];
    }
  }

  /** No newline survives cleaning. */
  lemma CleanNoNewline(text: string)
    ensures forall k :: 0 <= k < |Clean(text)| ==> Clean(text)[k] != '\n'
  {
    var lo, hi := CleanBounds(text);
    var t := ReplaceNewlines(text);
    forall k | 0 <= k < |Clean(text)| ensures Clean(text)[k] != '\n' {
      assert Clean(text)[k] == t[lo + k];
    }
  }

  /** Cleaning gives the empty string exactly when the text is all whitespace. */
  lemma CleanEmpty(text: string)
    ensures Clean(text) == [] <==> forall i :: 0 <= i < |text| ==> IsSpace(text[i])
  {
    var lo, hi := CleanBounds(text);
    var t := ReplaceNewlines(text);
    if Clean(text) == [] {
      forall i | 0 <= i < |text| ensures IsSpace(text[i]) {
        assert IsSpace(t[i]);
      }
    } else {
      assert !IsSpace(text[lo]);
    }
  }

  /** Cleaning is idempotent. */
  lemma CleanIdempotent(text: string)
    ensures Clean(Clean(text)) == Clean(text)
  {
    var c := Clean(text);
    var lo, hi := CleanBounds(text);
    CleanNoNewline(text);
    assert ReplaceNewlines(c) == c;
    assert SpaceEnd(c, 0) == 0 && c[0..] == c;
    assert TrimEnd(c, |c|) == |c|;
  }

  /** `get_embedding`: the cleaned text is sent to the model unless it is empty, in
      which case there is no embedding. */
  function GetEmbedding(provider: string -> Option<Vector>, text: string): (r: Option<Vector>)
    ensures r.Some? ==> Clean(text) != [] && r == provider(Clean(text))
  {
    var cleaned := Clean(text);
    if cleaned == [] then None else provider(cleaned)
  }

  /** A blank query (only whitespace and newlines) never reaches the model and never
      yields a vector; any other text yields exactly what the model returns for its
      cleaned form. */
  lemma GetEmbeddingBlank(provider: string -> Option<Vector>, text: string)
    ensures (forall i :: 0 <= i < |text| ==> IsSpace(text[i])) <==>
            (GetEmbedding(provider, text) == None && Clean(text) == [])
    ensures Clean(text) != [] ==> GetEmbedding(provider, text) == provider(Clean(text))
  {
    CleanEmpty(text);
  }
}
