/**
 * The lexical database the disambiguator consults (WordNet, reached through
 * nltk in the source), as a read-only oracle: every lookup the source makes
 * is one field of a `Lexicon` value, so the model holds for any database.
 */
module WordNet {

  /** A sense, known by its WordNet name such as "dog.n.01". */
  datatype Synset = Synset(name: string)

  datatype Lexicon = Lexicon(
    /** `wn.synsets(w)`: the senses of a word, in the database's order. */
    synsets: string -> seq<Synset>,
    hypernyms: Synset -> seq<Synset>,
    hyponyms: Synset -> seq<Synset>,
    partMeronyms: Synset -> seq<Synset>,
    partHolonyms: Synset -> seq<Synset>,
    /** `S.definition()`: the gloss of a sense. */
    definition: Synset -> string,
    /** `[l.name() for l in S.lemmas()]`: the synonyms a sense stands for. */
    lemmaNames: Synset -> seq<string>)
}
