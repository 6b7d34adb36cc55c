/** What the two language models hand to the extraction code. Both models are
    outside this model: their outputs are taken as given sequences. */
module Analysis {
  import opened Text

  /** One entry of the recognizer's output: the (possibly "##"-marked) word and its
      (possibly "B-"/"I-"-prefixed) label. */
  datatype Mention = Mention(word: string, entity: string)

  /** One token of the linguistic analyser's output, with the text of its
      syntactic head. */
  datatype Token = Token(
    text: string,
    lemmaText: string,
    pos: string,
    isAlpha: bool,
    isStop: bool,
    headText: string)

  /** The tokens `preprocess_text_spacy` keeps: alphabetic and not stop words. */
  predicate Kept(t: Token) { t.isAlpha && !t.isStop }

  /** The lower-cased lemmas of the kept tokens, in token order. */
  function Preprocess(doc: seq<Token>): (r: seq<string>)
    ensures |r| <= |doc|
    ensures forall k :: 0 <= k < |r| ==> IsLowerCase(r[k])
  {
    if doc == [] then []
    else
      var last := doc[|doc| - 1];
      Preprocess(doc[..|doc| - 1]) + (if Kept(last) then [Lower(last.lemmaText)] else [])
  }

  /** Preprocessing works token by token: it distributes over concatenation. */
  lemma {:induction false} PreprocessAppend(a: seq<Token>, b: seq<Token>)
    ensures Preprocess(a + b) == Preprocess(a) + Preprocess(b)
    decreases |b|
  {
    if b != [] {
      assert (a + b)[..|a + b| - 1] == a + b[..|b| - 1];
      PreprocessAppend(a, b[..|b| - 1]);
    } else {
      assert a + b == a;
    }
  }

  /** A string is in the result exactly when it is the lower-cased lemma of a kept token. */
  lemma {:induction false} PreprocessMembers(doc: seq<Token>, x: string)
    ensures x in Preprocess(doc) <==> exists i :: 0 <= i < |doc| && Kept(doc[i]) && x == Lower(doc[i].lemmaText)
  {
    if doc != [] {
      var init := doc[..|doc| - 1];
      PreprocessMembers(init, x);
      assert forall i :: 0 <= i < |init| ==> init[i] == doc[i];
    }
  }
}
