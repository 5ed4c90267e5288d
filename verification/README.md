# A verified model of UDPipe's deterministic core

UDPipe turns raw text into tokens, tags and dependency trees, reads and writes CoNLL-U, and scores its own output. Around
its statistical models stands a core of deterministic code over strings and arrays. This project models that core in Dafny
and proves what it is meant to do, for all inputs:

- **Evaluation** (`Lcs`, `Alignment`, `AlignmentEnds`, `AlignmentPairs`, `EvaluationData`, `Evaluation`). Sentences
  become words with character offsets; a merge with two pointers aligns system words with gold words, and inside
  multiword tokens a longest-common-subsequence table decides; spans, words and heads are then counted.
- **Joint segmentation** (`JointSegmentation`, `Resegmentation`). A paragraph is flattened, cut again by a dynamic program
  over token boundaries, and rebuilt. The parser is an arbitrary partial cost function of a span.
- **CoNLL-U and the tree** (`Sentences`, `ConlluReader`, `ConlluWriter`, `ConlluRoundTrip`, `ConlluSoundness`,
  `ConlluCanonical`, `ConlluBlocks`, `ConlluLeftovers`). The line parser, the writer, `set_head`, and reading block by block.
- **Other formats** (`HorizontalFormat`, `Presegmented`). One sentence a line, and the tokenizer that glues the pieces of a
  line together.
- **The MISC field** (`MiscFields`, `Tokens`). Registers for spaces and offsets kept in one `|`-separated string.
- **Lossless tokenization** (`LosslessText`, `LosslessTokenizer`). The wrapper around the tokenizer that carries all spacing
  over tokens, sentences and blocks, and the plaintext writer that puts the text together again. The inner tokenizer is any
  source of ordered, disjoint slices of the text; the multiword splitter is any function from forms to words.
- **The suffix array** of the detokenizer (`SuffixArray`).
- **The multiword splitter** (`MultiwordSplitter`, `MultiwordForms`, `SplitterRules`, `SplitterData`, `BinaryCodec`). The
  walk over suffix rules, the forms it builds, and the binary encoding of the rules.
- **Tag, lemma and character codecs** (`TagLemmaCodec`, `FormNormalization`, `Utf8`, `Strings`). UTF-8 follows section 3
  of RFC 3629, widened by the code to 0x1FFFFF.

Code that changes state step by step is a class or a method with loops, proved against a specification function; the
theorems are lemmas about these functions. Log-probabilities are reals with an explicit minus infinity, streams are strings,
string views are offsets or the rest of the text, and Unicode tables are arbitrary functions.

## What the proofs found

Some properties hold only under a condition that the code does not check. Each is proved as an equivalence or with a concrete
input:

- The alignment never ends when a multiword token that consists of spaces only is exposed: words of the other side are still
  to come, and no multiword token of the other side takes it into its range. `AlignmentEnds.EndsExactly` has the exact
  condition (another blank word at the same place, outside multiword tokens, can change it),
  `Evaluation.BlankMultiwordStalls` two sentences with equal characters, and `Evaluation.RunsEvaluate` says that sentences
  without blank tokens always align.
- An undefined head (-1) is not kept by the evaluation data: it becomes the absolute number of the last word but one before
  the sentence, or 0, or -1 (`EvaluationData.UndefinedHeadDrifts`).
- The backtrack of the joint segmentation ends if and only if the length limit is at least one and every multiword token
  fits in it (`JointSegmentation.BacktrackEnds`, `Resegmentation.FitsExactly`).
- The CoNLL-U reader loops forever exactly when it meets a carriage return without a line feed at a point where a line break
  ends no sentence (`ConlluSoundness.StuckExactly`; `ConlluSoundness.LoneReturnStalls` is an input).
- Read block by block, a block without a word line loses its comments and empty nodes, and an error comes of its multiword
  tokens, which all go to the next sentence when the text is read at once (`ConlluLeftovers.LeavesNothingExactly`,
  `ConlluLeftovers.CommentBlockLeaks`). If each paragraph has a word line, and each carriage return a line feed, both ways
  give the same sentences and the same error (`ConlluLeftovers.BlocksRefineWhole`).
- A multiword token or an empty node out of order is not written, and keeps the writer from writing any later one
  (`ConlluWriter.RangeBlocks`, `ConlluWriter.NodeBlocks`).
- The text comes back from the tokens exactly when every token with a tab or line break inside also has two blanks in a row,
  and no sentence starts inside the spacing already taken after the previous one (`LosslessText.LosslessExactly`, with two
  texts in `LosslessText.NotLossless`).
- Merging the pieces of a line shifts heads but not children, and numbers empty nodes twice where two pieces meet
  (`Presegmented.MergeKeepsIndexExactly`, `Presegmented.MergeKeepsEmptiesExactly`). The tokenizers of the library return
  neither heads nor empty nodes, so this takes a foreign inner reader (`Presegmented.MergeLosesChild`,
  `Presegmented.MergeRepeatsEmptyNode`).
- A lemma listed as flat that contains a tilde does not come back (`TagLemmaCodec.LemmaRoundTrip`,
  `TagLemmaCodec.TildeLost`).
- Overlong UTF-8 passes the validity check (`Utf8.OverlongIsValid`), and only shortest codings survive decoding and encoding
  (`Utf8.EncodeDecodeAll`).
- The prefix left of a suffix rule is counted in bytes of lowercased characters; it has up to three bytes too many exactly
  when the rule starts inside a character of the lowercased token (`MultiwordForms.PrefixAndSuffix`,
  `MultiwordForms.PrefixOvershoots`). Trained rules start only at bytes below 0x80 or from 0xC0 on
  (src/tokenizer/multiword_splitter_trainer.cpp:65-72) and never do.
- The early exit of the walk over suffix rules relies on the closure that loading makes (`MultiwordSplitter.ClosureNeeded`).

## Model

| member | source | states |
|---|---|---|
| Lcs.LengthBounds | src/model/evaluator.cpp:343-353 | no common subsequence of two suffixes is longer than the table entry |
| Lcs.TraceAttains | src/model/evaluator.cpp:355-362 | the forward traceback emits a common subsequence with exactly as many pairs as the table entry says |
| Lcs.TraceOptimal | src/model/evaluator.cpp:343-362 | no common subsequence has more pairs than the traceback emits |
| Lcs.TraceChooses | src/model/evaluator.cpp:355-362 | which longest common subsequence is emitted, told without the steps: the next pair has the first gold word that any can go on with; if that is the next gold word, the first equal system word, and if not, the last system word that any can go on with and the first gold word equal to it |
| Lcs.TraceDiagonal | src/model/evaluator.cpp:355-362 | on equal sequences the traceback matches every position with itself |
| Lcs.FillTable | src/model/evaluator.cpp:343-353 | the table filled backwards in place holds the longest-common-subsequence length of every pair of suffixes |
| Lcs.FillRow | src/model/evaluator.cpp:345-352 | the inner loop fills one row from the row below it and touches no other |
| Lcs.Match | src/model/evaluator.cpp:343-362 | table and traceback together return the specified pairs |
| Alignment.StalledRound | src/model/evaluator.cpp:314-341 | a round leaves both positions where they are, and is repeated for ever, if and only if a multiword head meets a range end before which neither head lies |
| Alignment.RoundAdvances | src/model/evaluator.cpp:314-363 | if every multiword token has start < end, every round advances one of the two positions |
| Alignment.ProperEnds | src/model/evaluator.cpp:314-363 | if every multiword token has start < end the loop ends |
| AlignmentEnds.EndsFrom | src/model/evaluator.cpp:314-363 | over words in text order, blank ones among them, the loop ends if no empty multiword token is exposed, that is, if each stands inside a range that the other side opens, or has no word of the other side to come |
| AlignmentEnds.EndsExactly | src/model/evaluator.cpp:314-363 | and it ends only then, unless an empty word outside multiword tokens stands at the place of an empty multiword token |
| AlignmentEnds.TakenAlong | src/model/evaluator.cpp:328-341 | such an empty word can take the empty multiword token along |
| Alignment.BlockCoversMultiwords | src/model/evaluator.cpp:328-341 | the growing range covers every multiword token that the scan takes in, and ends where it started or where one of them ends |
| Alignment.BlockOptimal | src/model/evaluator.cpp:325-362 | inside a multiword block words of equal form are matched in order, and no other increasing choice of equal forms in that block is larger |
| Alignment.AlignSound | src/model/evaluator.cpp:309-363 | matched pairs strictly increase on both sides, so the alignment is one-to-one and monotone, and each has equal spans or equal forms |
| Alignment.MergeFindsEqualSpans | src/model/evaluator.cpp:314-323 | without multiword tokens, two words are matched if and only if their start and end are equal |
| AlignmentPairs.PlainExactly | src/model/evaluator.cpp:309-363 | whatever multiword tokens there are elsewhere: a word outside multiword tokens that no multiword token of the other side overlaps is aligned with the word of the same span, if there is one, and with no other |
| AlignmentPairs.EqualSpansMeet | src/model/evaluator.cpp:309-363 | two words outside multiword tokens with equal spans are always aligned, if words have characters, stand in text order, and the loop ends |
| AlignmentPairs.TokenExactly | src/model/evaluator.cpp:325-363 | the words of a multiword token that holds whole words of the other side are aligned with these only, in order, by equal forms, and as many as possible |
| Alignment.SelfAlignment | src/model/evaluator.cpp:309-363 | data aligned with itself matches every word to itself and nothing else |
| Alignment.BestAlignment | src/model/evaluator.cpp:309-372 | whenever the loop ends, the procedure returns the specified pairs; words are unchanged but for the system heads, and each system head is re-indexed exactly |
| Alignment.MatchRound | src/model/evaluator.cpp:314-363 | one round of the outer loop moves both positions and matches as the specification of a round says |
| Alignment.FindBlock | src/model/evaluator.cpp:325-341 | the inner loop stops where the range extension is specified to stop |
| Alignment.ReindexHeads | src/model/evaluator.cpp:365-371 | a positive head becomes the gold id aligned with its head word, or -1 if that word is unaligned; other heads stay |
| Alignment.HeadsAgree | src/model/evaluator.cpp:365-371 | a re-indexed head equals a gold head if and only if both are the same root or undefined head, or the head words are aligned with each other, or the gold head is undefined and the system head word aligned with nothing |
| EvaluationData.EvaluationData.Append | src/model/evaluator.cpp:258-280 | the two-index loop appends characters, tokens, multiword labels and words of a sentence as specified, token by token |
| EvaluationData.EvaluationData.AppendToken | src/model/evaluator.cpp:261-277 | one token: its non-space characters, its span, and its word or its labelled words |
| EvaluationData.EvaluationData.AppendMultiword | src/model/evaluator.cpp:268-273 | a multiword token adds one word per member with its span, and a label of its form followed by the lowercased forms |
| EvaluationData.AddSentenceKeepsLayout | src/model/evaluator.cpp:258-280 | tokens and sentences tile the characters without gaps, words stay in text order, word ids are index plus one |
| EvaluationData.AddSentenceAppends | src/model/evaluator.cpp:241-280 | a sentence appends exactly its words in order, with absolute ids and heads, whatever its multiword tokens |
| EvaluationData.AddSentenceSpells | src/model/evaluator.cpp:258-280 | the span of each new token holds the form of the token without its spaces, in text order, and its words have that span |
| EvaluationData.AddSentenceLabels | src/model/evaluator.cpp:268-273 | the multiword tokens of a sentence, of one word or more, are recorded in order, each with the start of its span and its label, and nothing else is |
| EvaluationData.WordMeans | src/model/evaluator.cpp:241-256 | the head of a word keeps its distance or stays the root, the form is lowercased character by character, the relation ends before its first colon, and all other fields stay |
| EvaluationData.LabelsDiffer | src/model/evaluator.cpp:268-273 | two labels are equal if and only if the forms and all lowercased words are, unless a form holds a space |
| EvaluationData.NonSpaceAppend | src/model/evaluator.cpp:261-264 | all characters but the spaces are kept in order |
| EvaluationData.HeadsStayInside | src/model/evaluator.cpp:241-256 | with ids equal to positions an absolute head is 0 for a root and else the head moved by the words before, inside the sentence if and only if the head was one of its words |
| EvaluationData.UndefinedHeadDrifts | src/model/evaluator.cpp:244-246 | an undefined head does not stay undefined: it becomes the number of words before the sentence minus one |
| EvaluationData.RunsKeepLayout | src/model/evaluator.cpp:258-280 | over any run of accepted sentences, undefined heads among them, the layout holds and no head lies behind the last word; if all heads are defined, each is the root or a word |
| EvaluationData.RunsFill | src/model/evaluator.cpp:258-280 | over any run of sentences that have words and in which every token has a character that is not a space, all tokens, words and sentences have characters and multiword tokens start one after the other |
| EvaluationData.NonblankAligns | src/model/evaluator.cpp:258-280 | data without blank words is fit for the alignment and aligns with itself completely |
| EvaluationData.EvaluateF1 | src/model/evaluator.cpp:226-239 | on lists with increasing starts the two-pointer count is the size of the intersection of the two lists |
| EvaluationData.NonblankTokensIncrease | src/model/evaluator.cpp:226-239 | the starts of tiling tokens increase strictly if and only if no token but the last is blank |
| EvaluationData.HarmonicMean | src/model/evaluator.cpp:237-238 | the score is the harmonic mean of precision and recall |
| EvaluationData.ScoreShares | src/model/evaluator.cpp:237-238 | precision times the system count and recall times the gold count are the number of shared entries |
| Evaluation.RunsComparable | src/model/evaluator.cpp:258-280 | over such a run tokens, multiword tokens and sentences start one after the other, and the words meet all that the alignment needs; without multiword tokens so do the starts of words |
| Evaluation.RunsEvaluate | src/model/evaluator.cpp:138-151 | two such runs can be compared: on both sides every list of spans starts one after the other, and the alignment of their words ends |
| Evaluation.RunsAlignWords | src/model/evaluator.cpp:138-151 | over any two such runs: words outside multiword tokens with equal spans are always aligned, and such a word that no multiword token of the other side overlaps is aligned with no other word |
| Evaluation.RunsEndExactly | src/model/evaluator.cpp:314-363 | over any two runs of accepted sentences, blank tokens among them, when the alignment ends |
| Evaluation.EvaluatePlain | src/model/evaluator.cpp:138-180 | no scores if and only if the characters differ; else the spans that both sides have, the number of aligned words, and the aligned words with the same head, and label, are counted |
| Evaluation.CountWords | src/model/evaluator.cpp:281-291 | the loop counts the matched words that agree |
| Evaluation.AttachedExactly | src/model/evaluator.cpp:179-180 | the matched words with equal re-indexed heads are exactly the aligned words whose heads are aligned with each other or alike |
| Evaluation.PerfectScores | src/model/evaluator.cpp:138-180 | data evaluated against itself shares every span and aligns every word, with the same head |
| Evaluation.BlankMultiwordStalls | src/model/evaluator.cpp:258-363 | two sentences with the same characters, one with a multiword token that is a space, on which the alignment never ends |
| JointSegmentation.Relax | src/model/model_morphodita_parsito.cpp:313-317 | relaxing one piece updates one entry and keeps the meaning of all others |
| JointSegmentation.TryPieces | src/model/model_morphodita_parsito.cpp:298-319 | all pieces from one boundary are tried; it succeeds if and only if the parser accepts each of them |
| JointSegmentation.Forward | src/model/model_morphodita_parsito.cpp:294-319 | the forward program succeeds if and only if the parser accepts every admissible piece, and its table then holds the best score to every boundary, with the longest last piece that attains it |
| JointSegmentation.TableBounds | src/model/model_morphodita_parsito.cpp:294-319 | no segmentation of a prefix scores higher than the table entry |
| JointSegmentation.CutsAttain | src/model/model_morphodita_parsito.cpp:321-323 | the cuts that the stored lengths lead through score exactly the table entry |
| JointSegmentation.BacktrackOptimal | src/model/model_morphodita_parsito.cpp:294-323 | the recovered cuts have the maximum total among all segmentations into admissible pieces |
| JointSegmentation.BacktrackPreferred | src/model/model_morphodita_parsito.cpp:316-323 | of several segmentations with the maximum total it is the one with the longest last piece, and so on from the back |
| JointSegmentation.TotalClosed | src/model/model_morphodita_parsito.cpp:312-316 | the total of a segmentation is the sum of the parser costs of its pieces, one sentence log-probability for each piece, and two change log-probabilities for each inner cut that was no sentence boundary, if both ends of the paragraph are marked as such |
| JointSegmentation.BacktrackEnds | src/model/model_morphodita_parsito.cpp:321-323 | the end is reachable if and only if from every boundary some piece fits; otherwise the stored length is 0 and the loop never moves |
| JointSegmentation.Backtrack | src/model/model_morphodita_parsito.cpp:321-323 | the loop returns the lengths between the recovered cuts, last piece first, moving strictly back |
| Resegmentation.FlattenOk | src/model/model_morphodita_parsito.cpp:272-292 | the flattened paragraph has ids equal to positions, ordered multiword ranges, and token boundaries exactly where no multiword token is cut |
| Resegmentation.FlattenConserves | src/model/model_morphodita_parsito.cpp:272-292 | flattening keeps all words and multiword tokens in order |
| Resegmentation.MarksAreEnds | src/model/model_morphodita_parsito.cpp:272-292 | the sentence boundaries are marked at the start and exactly behind the last word of each sentence of the paragraph |
| Resegmentation.ParagraphTotal | src/model/model_morphodita_parsito.cpp:312-316 | for a paragraph: costs of the pieces, plus pieces times the sentence log-probability, plus twice the change log-probability times the number of inner cuts that are no original sentence ends |
| Resegmentation.FlattenParagraph | src/model/model_morphodita_parsito.cpp:272-292 | the loops compute the flattened paragraph |
| Resegmentation.PieceDense | src/model/model_morphodita_parsito.cpp:325-346 | between two token boundaries the rebuilt sentence has dense ids from 1, and each multiword token that starts in it ends in it, shifted back correctly |
| Resegmentation.RebuildConserves | src/model/model_morphodita_parsito.cpp:325-346 | the rebuilt sentences together hold the same words and multiword tokens in the same order, each exactly once |
| Resegmentation.FitsExactly | src/model/model_morphodita_parsito.cpp:298-323 | the backtrack ends if and only if the length limit is at least one and every multiword token fits in it, or there is no word |
| Resegmentation.Rebuild | src/model/model_morphodita_parsito.cpp:325-346 | the loop over the reversed lengths rebuilds the pieces between the cuts |
| Resegmentation.ParseParagraph | src/model/model_morphodita_parsito.cpp:271-358 | whenever every multiword token fits or the parser refuses a piece: fails exactly when the parser does, leaving the paragraph alone; else the result is cut at token boundaries with the best total score, of several with the longest last piece and so on from the back, and keeps all content |
| Sentences.AscendingUnique | src/sentence/sentence.cpp:42-65 | ascending lists with the same elements are equal, so the children lists are determined by the heads |
| Sentences.SurfaceTiles | src/sentence/output_format.cpp:327-336 | the loops that step over multiword tokens visit every word exactly once |
| Sentences.Sentence.Clear | src/sentence/sentence.cpp:27-35 | only the root is left |
| Sentences.Sentence.AddWord | src/sentence/sentence.cpp:37-40 | appends one word with the next id and no head |
| Sentences.Sentence.SetHead | src/sentence/sentence.cpp:42-65 | only the head, the relation and two children lists change, these by the one id; lists stay ascending, and an index of the heads stays one |
| ConlluReader.Reader.TakeLine | src/sentence/input_format.cpp:70-78 | takes the next line and its line break, but not a lone carriage return |
| ConlluReader.Reader.AddLine | src/sentence/input_format.cpp:92-188 | a line is added to the sentence, or refused with the error, exactly as the line parser is specified |
| ConlluReader.Reader.LinkHeads | src/sentence/input_format.cpp:195-201 | refuses the first head that is too large; otherwise the children lists become the index of all heads |
| ConlluReader.Reader.NextSentence | src/sentence/input_format.cpp:63-204 | in place of the cursor and the sentence: the sentence and rest of text, the end, or the error that the specification yields, whenever reading ends at all |
| ConlluWriter.Writer.WriteSentence | src/sentence/output_format.cpp:43-103 | the running indices write exactly the specified text |
| ConlluWriter.RangeBlocks | src/sentence/output_format.cpp:52-62 | a multiword token that starts before the words to come is not written, and neither is any after it |
| ConlluWriter.NodeBlocks | src/sentence/output_format.cpp:79-92 | an empty node of a word before those to come is not written, and neither is any after it |
| ConlluRoundTrip.RoundTrip | src/sentence/input_format.cpp:63-204 | a well-formed sentence, written and followed by any text, is read back as itself with exactly that text left, in both versions |
| ConlluRoundTrip.Relinked | src/sentence/input_format.cpp:195-201 | linking rebuilds exactly the children lists that were written off |
| ConlluCanonical.AcceptedExactly | src/sentence/input_format.cpp:92-188 | exactly these lines are accepted: ten columns, none of them empty, spaces in three of them since version 2, and by the first column a multiword token at the next word with empty columns, the next empty node, or the next word with a head that is no negative number |
| ConlluCanonical.RangeColumnsEmpty | src/sentence/input_format.cpp:118-127 | a multiword token is accepted if and only if every column that is not kept is an underscore, or Typo=Yes in FEATS since version 2 |
| ConlluCanonical.AcceptedIsWritten | src/sentence/input_format.cpp:63-204 | nothing that is accepted is dropped: the canonical text that a sentence is read from is exactly what is written for it |
| ConlluCanonical.WrittenIsCanonical | src/sentence/output_format.cpp:43-103 | every written sentence is a canonical text |
| ConlluCanonical.AcceptedTidied | src/sentence/input_format.cpp:63-204 | on any text: carriage returns before line feeds, leading empty lines and late comments make no difference to the reader, and without them the text is what is written, if it is canonical |
| ConlluSoundness.AcceptedIsWellFormed | src/sentence/input_format.cpp:63-204 | whatever the text, an accepted sentence has ids 1 to n, heads in range, children indexing heads, ordered disjoint multiword ranges inside, empty nodes numbered in order |
| ConlluSoundness.ReadWriteRead | src/sentence/output_format.cpp:43-103 | what was accepted from any text can be written, and is read back unchanged |
| ConlluSoundness.StuckExactly | src/sentence/input_format.cpp:69-83 | the line loop never ends if and only if the text before its first lone carriage return is read without an error and without a word |
| ConlluSoundness.ReadingEnds | src/sentence/input_format.cpp:69-83 | reading ends on every text in which each carriage return is followed by a line feed |
| ConlluSoundness.LoneReturnStalls | src/sentence/input_format.cpp:69-83 | a text that starts with a lone carriage return is never read |
| ConlluBlocks.ParaSplits | src/utils/getpara.h:29-41 | the blocks are consecutive pieces of the text, completed by a final line feed |
| ConlluBlocks.ParaBlankEnded | src/utils/getpara.h:29-41 | every block but the last ends in an empty line |
| ConlluBlocks.ReadPara | src/utils/getpara.h:29-41 | the read loop returns the specified block and rest |
| ConlluBlocks.BlockJoin | src/model/pipeline.cpp:87-102 | a block and more text, read at once: the sentences of the block, then those of the text read on from what the block left, or the error of the block |
| ConlluBlocks.BlockThenRest | src/model/pipeline.cpp:87-102 | if a block leaves nothing behind, its sentences followed by those of the rest, up to the first error, are the sentences of the whole |
| ConlluLeftovers.BlockExactly | src/model/pipeline.cpp:87-102 | before a rest that starts with a sentence as long as the left multiword ranges need, a block can be read on its own if and only if it leaves nothing behind |
| ConlluLeftovers.LeavesNothingExactly | src/model/pipeline.cpp:87-102 | a block can be read on its own before every rest if and only if it leaves no comment, empty node or multiword token behind |
| ConlluLeftovers.LeavesByLines | src/sentence/input_format.cpp:80-92 | a text that is read to its end leaves something if and only if its lines end in a paragraph without a word line |
| ConlluLeftovers.BlocksRefineWhole | src/model/pipeline.cpp:87-102 | on every text in which each carriage return is followed by a line feed and each paragraph has a word line, reading block by block gives the sentences of the whole text, and the same error if there is one |
| ConlluLeftovers.FirstBlockExactly | src/model/pipeline.cpp:87-102 | with a rest that is read the same either way and starts with a sentence that is long enough, the whole is if and only if the first block leaves nothing behind |
| ConlluLeftovers.CommentBlockLeaks | src/model/pipeline.cpp:87-102 | a comment, an empty line and a word: read at once the sentence has the comment, read by blocks it has not |
| HorizontalFormat.RoundTripExactly | src/sentence/input_format.cpp:245-299 | written sentences are read back as they were if and only if each has a word and every form is non-empty without tab, line break or no-break space; empty lines make no difference |
| HorizontalFormat.WordsRead | src/sentence/output_format.cpp:286-298 | one plain sentence comes back, and the line break after it is left |
| HorizontalFormat.ReadMeans | src/sentence/input_format.cpp:249-281 | any line is read as its words between spaces and tabs, all of them, in order, up to the line break |
| HorizontalFormat.ReadAllReadable | src/sentence/input_format.cpp:255-281 | whatever the text, only non-empty sentences of such forms are read |
| HorizontalFormat.Reader.NextSentence | src/sentence/input_format.cpp:249-281 | the loops read exactly the specified forms and leave the specified rest |
| HorizontalFormat.Reader.CompactSpaces | src/sentence/input_format.cpp:265-276 | the in-place compaction turns every no-break space into a space and keeps all other bytes |
| HorizontalFormat.WriteLine | src/sentence/output_format.cpp:286-298 | writes the forms with spaces as no-break spaces, one space between them |
| Presegmented.NextLineCuts | src/sentence/input_format.cpp:441-453 | the lines are consecutive pieces of the text, each with all line breaks after it |
| Presegmented.NextLineUnbroken | src/sentence/input_format.cpp:441-453 | no line break lies inside a line |
| Presegmented.MergeKeepsShape | src/sentence/input_format.cpp:458-471 | ids stay dense, heads inside, multiword ranges ordered and inside |
| Presegmented.HeadsStayInPart | src/sentence/input_format.cpp:459-464 | a shifted head points to the same word of its own part |
| Presegmented.RangesStayInPart | src/sentence/input_format.cpp:466-471 | a shifted multiword token covers the same words of its own part |
| Presegmented.MergeKeepsIndexExactly | src/sentence/input_format.cpp:458-464 | children still index heads if and only if the part brings no links, or comes first and brings none to the root |
| Presegmented.MergeLosesChild | src/sentence/input_format.cpp:458-464 | a linked word merged into an empty sentence is no child of the root |
| Presegmented.MergeKeepsEmptiesExactly | src/sentence/input_format.cpp:473-477 | empty nodes stay numbered in order if and only if not both parts have one where they meet |
| Presegmented.MergeRepeatsEmptyNode | src/sentence/input_format.cpp:473-477 | two empty nodes where parts meet get the same number |
| Presegmented.MergeAllKeeps | src/sentence/input_format.cpp:457-478 | over any parts without links: shape and index are kept, and the words are those of all parts in order, with all their fields |
| Presegmented.NextMergedMeans | src/sentence/input_format.cpp:440-485 | what is consumed is a row of lines, all but the last without a word, and the sentence has exactly the words of the last one; if there are none, the text is read to its end |
| Presegmented.Append | src/sentence/input_format.cpp:458-477 | the three loops append exactly the shifted part |
| Presegmented.PresegmentedTokenizer.NextSentence | src/sentence/input_format.cpp:440-485 | lines are read until a sentence has a word, and nothing else is consumed |
| MiscFields.FieldsRemoved | src/sentence/token.cpp:142-157 | removing takes away exactly the fields of that name |
| MiscFields.FieldsSet | src/sentence/token.cpp:159-164 | setting replaces all fields of a name by one at the end; every other field keeps its value and place |
| MiscFields.UnescapeEscape | src/sentence/token.cpp:166-209 | unescaping an escaped string gives it back |
| MiscFields.EscapeOne | src/sentence/token.cpp:166-184 | the six escapes; every other character stands for itself |
| MiscFields.EscapedIsSafe | src/sentence/token.cpp:166-184 | an escaped string has no space, bar, tab, carriage return or line feed |
| MiscFields.UnescapeOne | src/sentence/token.cpp:186-209 | the six pairs that are unescaped; every other pair, and a last backslash, stands as it is |
| MiscFields.UnescapeAppend | src/sentence/token.cpp:186-209 | pairs are unescaped one after the other, from the front |
| MiscFields.RangeRoundTrip | src/sentence/token.cpp:92-124 | an offset range is read back as it was set, up to the size_t bound |
| MiscFields.RangeMeans | src/sentence/token.cpp:92-117 | digits, a colon and digits are read as the two numbers, whatever follows, if and only if both fit a size_t |
| MiscFields.RangeOnly | src/sentence/token.cpp:92-117 | no other text is read as a range |
| MiscFields.ApplyUpdates | src/sentence/token.cpp:37-124 | one setter overwrites its own register, touches no other, and keeps all other fields in order |
| MiscFields.RunsAreRegisters | src/sentence/token.cpp:37-124 | over any sequence of setters on any string every getter returns what was set last, and all other fields keep value and order |
| MiscFields.AfterIsLastSet | src/sentence/token.cpp:53-73 | the spaces after are read back as they were set, whichever fields stand for them |
| Tokens.Token.GetMiscField | src/sentence/token.cpp:127-140 | the search loop finds the value of the first field of that name |
| Tokens.Token.RemoveMiscField | src/sentence/token.cpp:142-157 | the erasing loop removes every field of that name with one neighbouring separator each |
| Tokens.Token.StartMiscField | src/sentence/token.cpp:159-164 | removes the field and starts it anew at the end |
| Tokens.Token.AppendEscapedSpaces | src/sentence/token.cpp:166-184 | appends the escaped spaces |
| Tokens.Token.UnescapeSpaces | src/sentence/token.cpp:186-209 | the index loop unescapes as specified, unknown pairs and a last backslash included |
| Tokens.Token.SetSpaces | src/sentence/token.cpp:46-51 | sets spaces before or in the token |
| Tokens.Token.SetSpacesAfter | src/sentence/token.cpp:62-73 | sets the spaces after, through SpaceAfter where one space or none says it |
| Tokens.Token.GetTokenRange | src/sentence/token.cpp:92-117 | reads a range, refusing what overflows |
| LosslessText.ShownExactly | src/tokenizer/morphodita_tokenizer_wrapper.cpp:88-96 | a token is shown as it was if and only if it holds no CR, LF or TAB, or else two blanks in a row |
| LosslessText.FormMeans | src/tokenizer/morphodita_tokenizer_wrapper.cpp:88-96 | a form has no CR, LF or TAB and no two spaces in a row; its other characters are those of the raw text, with a space between two of them exactly where the raw text has a blank between them |
| LosslessText.TidyUnique | src/tokenizer/morphodita_tokenizer_wrapper.cpp:88-96 | this determines the form |
| LosslessText.SpacingMeans | src/tokenizer/morphodita_tokenizer_wrapper.cpp:41-46 | spacing is the longest run of space separators, CR, LF and TAB |
| LosslessText.CleanKeeps | src/tokenizer/morphodita_tokenizer_wrapper.cpp:75-84 | trimming and dropping forms loses nothing but blanks |
| LosslessText.BodyExact | src/sentence/output_format.cpp:326-337 | the written tokens of a sentence have the length of the text they cover, and are that text exactly when each is kept |
| LosslessText.LosslessExactly | src/tokenizer/morphodita_tokenizer_wrapper.cpp:39-174 | over any run the output and the saved spaces are the text of all blocks if and only if every token is kept and no sentence starts inside spacing already taken |
| LosslessText.Lossless | src/tokenizer/morphodita_tokenizer_wrapper.cpp:39-174 | in particular whenever tokens hold no CR, LF or TAB and start with no spacing |
| LosslessText.NotLossless | src/tokenizer/morphodita_tokenizer_wrapper.cpp:88-127 | a tab inside a token is lost, and a space separator at the start of a sentence comes twice |
| LosslessTokenizer.ExpectedRenders | src/sentence/output_format.cpp:326-337 | the tokens of a sentence, written out, are its text with all spacing |
| LosslessTokenizer.ExpectedAt | src/tokenizer/morphodita_tokenizer_wrapper.cpp:87-127 | the fields of the k-th token: its own form, the raw text where the form is shorter, spaces before for the first one only, and the spaces after |
| LosslessTokenizer.AppendToken | src/tokenizer/morphodita_tokenizer_wrapper.cpp:133-136 | with or without a splitter the sentence gains exactly one token of the text, with that form and those spaces |
| LosslessTokenizer.Wrapper.SetText | src/tokenizer/morphodita_tokenizer_wrapper.cpp:39-64 | the leading spacing goes to the saved spaces; what remains to be written is that of the new text |
| LosslessTokenizer.Wrapper.ResetDocument | src/tokenizer/morphodita_tokenizer_wrapper.cpp:28-37 | unread text and saved spaces are dropped |
| LosslessTokenizer.Wrapper.TrimForms | src/tokenizer/morphodita_tokenizer_wrapper.cpp:75-84 | the trimming loop erases exactly the blanks around the forms and the forms that are empty then |
| LosslessTokenizer.Wrapper.MakeForm | src/tokenizer/morphodita_tokenizer_wrapper.cpp:90-96 | CR, LF and TAB become spaces and runs of spaces one |
| LosslessTokenizer.Wrapper.ReadForm | src/tokenizer/morphodita_tokenizer_wrapper.cpp:87-127 | one token gets its spaces before, the raw text if its length changed, and the spaces after up to the next form or through the spacing |
| LosslessTokenizer.Wrapper.NextSentence | src/tokenizer/morphodita_tokenizer_wrapper.cpp:66-174 | the tokens of the next sentence that has one carry exactly the text between the old and the new cursor; without one all unread text is saved |
| LosslessTokenizer.WriteSentence | src/sentence/output_format.cpp:326-337 | the writer renders every token of the text once, with its spaces |
| LosslessTokenizer.WriteRun | src/model/pipeline.cpp:87-102 | over any blocks, each read to its end before the next: output and saved spaces are as specified, and are the text of the blocks if and only if these are read faithfully |
| SuffixArray.TruncationMonotone | src/tokenizer/detokenizer.h:50-64 | cutting strings to a length keeps their order |
| SuffixArray.SuffixArray.constructor | src/tokenizer/detokenizer.cpp:119-125 | the array is a permutation of all positions, sorted by suffix |
| SuffixArray.SuffixArray.LowerBound | src/tokenizer/detokenizer.cpp:127-128 | the first position whose suffix, cut to the length of the pattern, is not below it |
| SuffixArray.SuffixArray.UpperBound | src/tokenizer/detokenizer.cpp:129-129 | the first position whose cut suffix is above the pattern |
| SuffixArray.FoundAll | src/tokenizer/detokenizer.cpp:127-131 | the positions between the two bounds are as many as the places where the pattern occurs |
| SuffixArray.SuffixArray.Count | src/tokenizer/detokenizer.cpp:127-131 | the number of places where the pattern occurs in the text, for every text and pattern |
| MultiwordSplitter.SearchSuffixes | src/tokenizer/multiword_splitter.cpp:40-51 | the walk with early exit finds the longest match at which it arrives; with prefix-closed rules that is the longest rule that matches and has words |
| MultiwordSplitter.LongestIsLongestSuffix | src/tokenizer/multiword_splitter.cpp:37-53 | on the reversed token that is the longest rule that is a proper suffix of the token |
| MultiwordSplitter.ClosureNeeded | src/tokenizer/multiword_splitter.cpp:43-45 | rules that are not closed, on which the walk returns 0 although a rule matches |
| MultiwordForms.FullRuleApplies | src/tokenizer/multiword_splitter.cpp:32-37 | a splitter that holds given rules splits a token by the full rule of its lowercased form, if there is one |
| MultiwordForms.SuffixRuleApplies | src/tokenizer/multiword_splitter.cpp:37-53 | if there is none, by the longest suffix rule that its lowercased form ends with and is longer than, since version 2 |
| MultiwordForms.NoRuleApplies | src/tokenizer/multiword_splitter.cpp:37-61 | and else it stays one word |
| MultiwordSplitter.MultiwordSplitter.AppendToken | src/tokenizer/multiword_splitter.cpp:21-93 | one word when no rule applies; else a multiword token over exactly the new words, numbered on from the last one |
| MultiwordSplitter.MultiwordSplitter.Load | src/tokenizer/multiword_splitter.cpp:95-143 | loading succeeds exactly on well-formed data of a known version, and the splitter is then prefix-closed with the decoded rules |
| MultiwordForms.PrefixReaches | src/tokenizer/multiword_splitter.cpp:76-82 | the prefix ends between two code points and lowercases to the needed bytes, with at most three more |
| MultiwordForms.PrefixExact | src/tokenizer/multiword_splitter.cpp:76-82 | the prefix lowercases to exactly the needed bytes if and only if the byte after them starts a character |
| MultiwordForms.PrefixAndSuffix | src/tokenizer/multiword_splitter.cpp:76-82 | prefix and rule together make the lowercased token if and only if the rule does not start inside a character of it; otherwise the prefix has up to three bytes too many |
| MultiwordForms.PrefixOvershoots | src/tokenizer/multiword_splitter.cpp:76-82 | a rule of one continuation byte, whose prefix is the whole token |
| MultiwordForms.FirstFormCased | src/tokenizer/multiword_splitter.cpp:63-84 | the first form is the prefix and the first word of the rule, in upper case, capitalized or as it is, by the casing of the token |
| MultiwordForms.FirstWordCased | src/tokenizer/multiword_splitter.cpp:63-84 | told from the characters of the token: behind the prefix every character of the first word is in upper case if the token starts in upper case and has no other letter; only the first one, and only without a prefix, if the token starts in upper case and has another letter; none if it does not start in upper case |
| MultiwordForms.OtherWordsCased | src/tokenizer/multiword_splitter.cpp:85-92 | told from the characters of the token: the words after the first are in upper case if the token starts in upper case and has no other letter, and else the words of the rule |
| SplitterRules.EncodeRulesLoop | src/tokenizer/multiword_splitter_trainer.cpp:104-119 | the loops append the specified encoding |
| SplitterRules.BuiltRepresents | src/tokenizer/multiword_splitter.cpp:105-137 | the loaded map holds every rule under its reversed key, for suffix rules empty entries for exactly the missing prefixes, and nothing else |
| SplitterRules.LoadEncode | src/tokenizer/multiword_splitter.cpp:95-143 | loading the encoded rules succeeds at the end of the data and gives back all rules, for strings of any length |
| SplitterData.LoadExactly | src/tokenizer/multiword_splitter.cpp:95-143 | data are loaded if and only if they are codings of rules to their end, each with words: full rules, and suffix rules since version 2 |
| SplitterData.CodesLoad | src/tokenizer/multiword_splitter.cpp:95-143 | and the splitter then holds exactly these rules; a key that comes more than once has the words of all its rules in order |
| SplitterData.BuiltCollects | src/tokenizer/multiword_splitter.cpp:105-137 | the same of one section, whatever its rules |
| SplitterRules.LoadIsClosed | src/tokenizer/multiword_splitter.cpp:133-136 | whatever bytes are loaded, the suffix rules are closed under non-empty prefixes |
| SplitterRules.LoadRulesLoop | src/tokenizer/multiword_splitter.cpp:105-137 | the loop decodes one section as specified, or fails |
| SplitterRules.ClosePrefixes | src/tokenizer/multiword_splitter.cpp:133-136 | adds an empty entry for every non-empty proper prefix that has none |
| BinaryCodec.NumberRoundTrip | src/utils/binary_encoder.h:59-62 | four bytes give the number back |
| BinaryCodec.TextRoundTrip | src/utils/binary_encoder.h:72-80 | strings come back whole, also those of 255 bytes and more |
| BinaryCodec.TextBack | src/utils/binary_decoder.h:83-87 | what is taken as a string is a coding of it, the one that is written or, for a short string, the long one |
| BinaryCodec.KnownNumber | src/utils/binary_encoder.h:59-62 | the lowest byte comes first |
| BinaryCodec.BinaryEncoder.AddStr | src/utils/binary_encoder.h:72-80 | appends the specified encoding |
| TagLemmaCodec.FindSeparator | src/trainer/trainer_morphodita_parsito.cpp:802-805 | finds the first separator that occurs in neither tag, if there is one |
| TagLemmaCodec.CanCombineTag | src/trainer/trainer_morphodita_parsito.cpp:799-812 | accepts a word exactly when some separator occurs in neither tag |
| TagLemmaCodec.CombineTag | src/trainer/trainer_morphodita_parsito.cpp:814-833 | builds the combined tag, with a usable separator whenever there is one |
| TagLemmaCodec.TagRoundTrip | src/model/model_morphodita_parsito.cpp:401-417 | the combined tag is cut back into UPOSTAG, XPOSTAG and FEATS for every setting of the flags |
| TagLemmaCodec.AnalyzedWord.FillTags | src/model/model_morphodita_parsito.cpp:399-417 | the running indices store the specified parts, and only those asked for |
| TagLemmaCodec.AnalyzedWord.FillLemma | src/model/model_morphodita_parsito.cpp:369-397 | stores the decoded lemma |
| TagLemmaCodec.NormalizeIdempotent | src/model/model_morphodita_parsito.cpp:420-490 | normalizing twice is normalizing once, and a non-empty form never becomes empty |
| TagLemmaCodec.NormalizeFormLoop | src/model/model_morphodita_parsito.cpp:465-489 | the loop computes the normalized form |
| FormNormalization.FormsAlike | src/model/model_morphodita_parsito.cpp:420-490 | two forms are normalized alike if and only if their letters are, one by one, up to the seven kinds of letters that are written in several ways, or both consist of marks and start with the same one |
| TagLemmaCodec.SpacesRoundTrip | src/model/model_morphodita_parsito.cpp:492-508 | spaces sent out as no-break spaces come back, if there was no no-break space before |
| TagLemmaCodec.RestoredHasNone | src/model/model_morphodita_parsito.cpp:392-397 | no no-break space is left after the replacement |
| TagLemmaCodec.RestoreSpacesLoop | src/model/model_morphodita_parsito.cpp:392-397 | the in-place loop replaces every no-break space |
| TagLemmaCodec.LemmaRoundTrip | src/trainer/trainer_morphodita_parsito.cpp:853-876 | the lemma comes back if and only if it has no no-break space and, unless empty or an underscore, no tilde if it is flat and not the shape of a replacement if it is not |
| TagLemmaCodec.TildeLost | src/trainer/trainer_morphodita_parsito.cpp:853-876 | the flat lemma a~b does not come back |
| Utf8.DecodeEncode | src/unilib/utf8.h:106-130 | decoding an encoded code point below 0x200000 gives it back and takes exactly its bytes, whatever follows |
| Utf8.EncodeDecode | src/unilib/utf8.h:227-233 | encoding what was decoded gives the bytes back for a shortest coding, and otherwise differs in the first byte |
| Utf8.EncodeDecodeAll | src/unilib/utf8.cpp:62-74 | decoding and encoding a string gives it back if and only if every coding in it is the shortest one |
| Utf8.DecodeEncodeAll | src/unilib/utf8.cpp:62-74 | encoding and decoding code points gives them back |
| Utf8.EncodeString | src/unilib/utf8.cpp:69-74 | the loop appends the encodings of all code points |
| Utf8.EncodingInjective | src/unilib/utf8.cpp:69-74 | different code points have different encodings |
| Utf8.EncodedIsValid | src/unilib/utf8.cpp:37-53 | every encoded string is valid |
| Utf8.ValidExactly | src/unilib/utf8.cpp:37-53 | a string is valid if and only if it is a row of lead bytes, each with as many continuation bytes as it asks for |
| Utf8.ShortestIsValid | src/unilib/utf8.cpp:37-53 | every string of shortest codings is valid |
| Utf8.OverlongIsValid | src/unilib/utf8.cpp:37-53 | the converse fails |
| Utf8.Decode | src/unilib/utf8.h:106-130 | pointer and length move together by one to four bytes on any input, and yield the specified code point |
| Utf8.StepTakes | src/unilib/utf8.h:106-130 | the decoder takes a lead byte and the continuation bytes behind it, as many as it asks for and no other byte; it yields a question mark if one is missing |
| Utf8.KnownCodings | src/unilib/utf8.h:227-233 | the examples of section 7 of RFC 3629 |
| Utf8.IsValid | src/unilib/utf8.cpp:37-53 | the byte loop decides validity |
| Utf8.MapIdempotent | src/unilib/utf8.h:242-247 | mapping twice with an idempotent function is mapping once |
| Strings.SplitJoin | src/utils/split.h:44-53 | splitting joined fields without separators gives them back |
| Strings.JoinSplit | src/utils/split.h:44-53 | joining what was split gives the text back |
| Strings.SplitText | src/utils/split.h:44-53 | the loop yields the fields, and none for an empty text |
| Strings.ScanExact | src/sentence/token.cpp:97-103 | scanning digits succeeds if and only if the number fits, and then yields it and the rest |
| Strings.ParseDecimal | src/utils/parse_int.h:38-77 | a printed number is parsed back exactly when it fits an int |
| Strings.ParseIntMeans | src/utils/parse_int.h:38-77 | white space, a sign, digits and white space are read as the number they denote if and only if it fits an int |
| Strings.ParseIntOnly | src/utils/parse_int.h:38-77 | no other string is read |
| Strings.ParseIntLoop | src/utils/parse_int.h:38-77 | the loops compute the specified parse, with the exact int bounds on both sides |
## Left out

- The tokenizers, taggers, the parser and the compressor: their code is a parameter (slices of the text, a cost of a span, bytes) under the contract named above.
- Unicode categories and case tables: arbitrary functions. Forms in the evaluator are code points; their decoding is in `Utf8`.
- Floating point: scores and log-probabilities are exact reals, so rounding and ties caused by it are not covered.
- `perfect_alignment`, the printing of the report, and the accuracies over tags and lemmas, which are counts over other fields of the same matched words.
- Alignment.BestAlignment: requires that the loop ends (`Alignment.Ends`), which `AlignmentEnds.EndsExactly` tells from the spans.
- AlignmentEnds.EndsExactly: where an empty word outside multiword tokens stands at the place of an empty multiword token, only that the loop ends when nothing is exposed is proved; whether such a word is taken along depends on the words of the other side one by one.
- Resegmentation.ParseParagraph: requires that every multiword token fits in the length limit or the parser refuses a piece, because the backtrack does not end otherwise; comments and document marks of the rebuilt sentences are left out.
- ConlluReader.Reader.NextSentence: says nothing of the sentence left behind by an error, and nothing when reading never ends; word counts beyond the range of int are not modelled.
- ConlluCanonical.AcceptedIsWritten: a canonical text has its comments in front, no empty node between a multiword token and its first word, numbers as they are printed, and line feeds; `ConlluCanonical.AcceptedTidied` covers carriage returns, leading empty lines and late comments. An empty node between a multiword token and its first word is written in front of the multiword token, and a number in another notation as it is printed.
- ConlluCanonical.AcceptedExactly: says which lines are accepted, not which of several errors is reported first.
- AlignmentPairs.TokenExactly: the gold multiword tokens in front of the token must start no later than the system word that opens their range, as the loop has then come to the token when it is reached.
- LosslessTokenizer.Wrapper.SetText: leaves out the code point offsets that serve token ranges.
- LosslessTokenizer.Wrapper.ResetDocument: leaves out the document id, the sentence counters and the offsets.
- LosslessTokenizer.Wrapper.ReadForm: leaves out normalized spaces and token ranges.
- LosslessTokenizer.Wrapper.NextSentence: leaves out normalized spaces, token ranges (the source does not erase the range of a form that it drops, so ranges shift against forms) and the comments for documents, paragraphs, ids and text, none of which the plaintext writer without normalization reads.
- ConlluLeftovers.FirstBlockExactly: one block before a rest that is read the same either way; how the leftovers of several blocks act together on a stream with errors is not stated.
- HorizontalFormat.Reader.NextSentence: leaves out the comments for documents, paragraphs and ids.
- Presegmented.PresegmentedTokenizer.NextSentence: the inner tokenizer is a function of the line without errors; comments are left out.
- SuffixArray.SuffixArray.constructor: std::sort is stood in for by insertion; any sort has the same result, since suffixes differ.
- SplitterRules.EncodeRulesLoop: the rules are a list in the order of the map; strings of 2^32 bytes and more, and rules with more than 255 words, are outside, as the encoder refuses them.
- TagLemmaCodec.AnalyzedWord.FillLemma: lemma encodings 1 and 2 in model version 3; encoding 0, raw models and versions 1 and 2 use only simpler branches.
- The walk of the detokenizer over the tokens and its scores, which rest on logarithms of counts.
- The counting and pruning of splitter rules in training.
- The vertical, EPE and Matxin formats, UTF-16, option parsing, streams and files, the REST server and the language bindings.
