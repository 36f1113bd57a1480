/** The collaborators the scoring code calls but whose code is not part of this model.
    They are passed around as function values, so every property proved about the
    scorers holds whatever these functions do. */
module Externals {

  datatype Env = Env(
    /** `str.lower()` (Unicode lower-casing). */
    lower: string -> string,
    /** `syllabification._perform_final_splits`: the heuristic second phase of syllabification. */
    finalSplits: string -> string,
    /** `rhyme.is_tronca`: the word is stressed on its last syllable. */
    isTronca: string -> bool,
    /** `rhyme.rhyme_score`: how well two words rhyme. */
    rhymeScore: (string, string) -> real,
    /** `Tokenizer.tokenize` from `metrics.text_encoder`. */
    tokenize: string -> seq<string>,
    /** `Tokenizer.join` from `metrics.text_encoder`. */
    join: seq<string> -> string)
}
