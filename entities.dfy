/**
 * The values the engine works on.  Each regex search of the source becomes a
 * given value here: the citation commands found in a revision, the fields the
 * entry regexes extract from a bib file, the capture groups of a bbl entry.
 */
module Entities {
  import opened Wrappers

  /** The capture groups of one regex match; `None` for a group that did not take part. */
  type Groups = seq<Option<string>>

  /** The resolved (`%AUTHOR%`, `%YEAR%`) pair of one reference key. */
  datatype AuthYear = AuthYear(author: string, year: string)

  /** What the author and year regexes extract from one bib entry. */
  datatype Entry = Entry(author: Option<string>, year: Option<string>)

  /**
   * One bib file: its text (searched literally for each key) and, per key, the
   * entry the entry regex matches in it (absent when it matches nothing).
   */
  datatype BibSource = BibSource(contents: string, entries: map<string, Entry>)

  /** The bbl text and, per key, the groups of the first match of the bbl regex. */
  datatype BblSource = BblSource(contents: string, matches: map<string, Groups>)

  /** The bracketed optional arguments that the note regex captured. */
  datatype Notes = NoNotes | OneNote(note: string) | TwoNotes(first: string, second: string)

  /**
   * What is known about the references of one revision: the keys in order of
   * first citation, the bbl capture groups of each key and its (author, year) pair.
   */
  datatype References = References(refkeys: seq<string>, captureGroups: map<string, Groups>, authyear: map<string, AuthYear>)

  /** One citation command found in the comment-free text. */
  datatype CiteMatch = CiteMatch(text: string, command: string, notes: Notes, args: string)
}
