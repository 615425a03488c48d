/**
 * How asciiart.js settles which file to read: the path given on the
 * command line when it exists; otherwise the path typed or dropped into the
 * terminal, trimmed and with every quote character removed, which must
 * then exist. The file system and the terminal are outside the model: the
 * existence test is a predicate on paths and the answer is a parameter.
 */
module InputPath {
  import opened Wrappers
  import opened JsText

  /** The characters of the class /["']/. */
  predicate IsQuote(c: char) {
    c == '"' || c == '\''
  }

  predicate Unquoted(s: string) {
    forall i :: 0 <= i < |s| ==> !IsQuote(s[i])
  }

  /**
   * s.replace(/["']/g, ''): drops every quote character and keeps every
   * other character with its multiplicity (RemoveQuotesAppend fixes their
   * order).
   */
  function RemoveQuotes(s: string): (t: string)
    ensures |t| <= |s|
    ensures Unquoted(t)
    ensures forall c :: !IsQuote(c) ==> multiset(t)[c] == multiset(s)[c]
    ensures t == s <==> Unquoted(s)
  {
    if s == [] then []
    else
      assert s == [s[0]] + s[1..];
      if IsQuote(s[0]) then RemoveQuotes(s[1..])
      else [s[0]] + RemoveQuotes(s[1..])
  }

  /** Removing quotes piece by piece is removing them from the whole. */
  lemma {:induction false} RemoveQuotesAppend(a: string, b: string)
    ensures RemoveQuotes(a + b) == RemoveQuotes(a) + RemoveQuotes(b)
  {
    if a == [] {
      assert a + b == b;
    } else {
      assert (a + b)[0] == a[0];
      assert (a + b)[1..] == a[1..] + b;
      RemoveQuotesAppend(a[1..], b);
    }
  }

  /** The path made of the answer to the prompt: answer.trim().replace(/["']/g, ''). */
  function CleanAnswer(answer: string): (path: string)
    ensures |path| <= |answer|
    ensures Unquoted(path)
  {
    RemoveQuotes(Trim(answer))
  }

  /**
   * A path dropped into a terminal arrives wrapped in quotes and padded with
   * white space; cleaning gives back exactly the path, spaces inside it
   * included.
   */
  lemma CleanQuotedAnswer(ws: string, q: char, path: string, ws': string)
    requires forall i :: 0 <= i < |ws| ==> IsSpace(ws[i])
    requires forall i :: 0 <= i < |ws'| ==> IsSpace(ws'[i])
    requires IsQuote(q) && Unquoted(path)
    ensures CleanAnswer(ws + [q] + path + [q] + ws') == path
  {
    var core := [q] + path + [q];
    assert ws + [q] + path + [q] + ws' == ws + core + ws';
    TrimPadded(ws, core, ws');
    RemoveQuotesAppend([q] + path, [q]);
    RemoveQuotesAppend([q], path);
    assert RemoveQuotes([q]) == [];
  }

  /** A typed path without quotes is only stripped of its padding. */
  lemma CleanPlainAnswer(ws: string, path: string, ws': string)
    requires forall i :: 0 <= i < |ws| ==> IsSpace(ws[i])
    requires forall i :: 0 <= i < |ws'| ==> IsSpace(ws'[i])
    requires path != [] && !IsSpace(path[0]) && !IsSpace(path[|path| - 1])
    requires Unquoted(path)
    ensures CleanAnswer(ws + path + ws') == path
  {
    TrimPadded(ws, path, ws');
  }

  /** The error the script reports before exiting: no file at the cleaned path. */
  datatype PathError = NotFound(path: string)

  /**
   * The path the script goes on with: the command-line path when it exists,
   * the cleaned answer to the prompt otherwise.
   */
  function ChosenPath(inputFile: string, fileExists: string -> bool, answer: string): (path: string)
    ensures path == inputFile || path == CleanAnswer(answer)
    ensures path != inputFile ==> Unquoted(path) && |path| <= |answer|
  {
    if fileExists(inputFile) then inputFile else CleanAnswer(answer)
  }

  /**
   * Lines 45-54 of the script: keep the command-line path when it exists,
   * otherwise take the cleaned answer to the prompt, and fail when that
   * does not exist either. Whatever it returns names an existing file.
   */
  method ResolveImagePath(inputFile: string, fileExists: string -> bool, answer: string)
    returns (r: Result<string, PathError>)
    ensures fileExists(inputFile) ==> r == Ok(inputFile)
    ensures !fileExists(inputFile) ==> r.Ok? || r == Err(NotFound(CleanAnswer(answer)))
    ensures r.Ok? <==> fileExists(inputFile) || fileExists(CleanAnswer(answer))
    ensures r.Ok? ==> fileExists(r.value) && r.value == ChosenPath(inputFile, fileExists, answer)
    ensures r.Err? ==> !fileExists(r.error.path) && r.error.path == ChosenPath(inputFile, fileExists, answer)
  {
    var imageFilePath := inputFile;
    if !fileExists(inputFile) {
      imageFilePath := CleanAnswer(answer);
      if !fileExists(imageFilePath) {
        return Err(NotFound(imageFilePath));
      }
    }
    return Ok(imageFilePath);
  }
}
