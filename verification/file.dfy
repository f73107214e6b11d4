/**
 * The text a file holds (the File class). Every write ends the
 * file with a line break; without the append flag the old text is dropped
 * first. Reading a file gives its text back unchanged.
 */
module FileNode {
  import opened Kmp

  /** File::write: the message followed by a line break, after the old text
      when appending and on its own otherwise. */
  function Write(content: string, message: string, append: bool): (r: string)
    ensures |r| == (if append then |content| else 0) + |message| + 1
    ensures append ==> r[..|content|] == content
    ensures r[|r| - 1 - |message|..|r| - 1] == message
    ensures r[|r| - 1] == '\n'
  {
    (if append then content else "") + message + "\n"
  }

  /** Overwriting forgets everything written before. */
  lemma OverwriteForgets(c1: string, c2: string, message: string)
    ensures Write(c1, message, false) == Write(c2, message, false)
  {
  }

  /** Two writes, the second appending, leave both messages on their own lines. */
  lemma OverwriteThenAppend(content: string, m1: string, m2: string)
    ensures Write(Write(content, m1, false), m2, true) == m1 + "\n" + m2 + "\n"
  {
  }

  /** What was just written can be found by a search for it, whatever came before. */
  lemma {:induction false} WrittenIsFound(content: string, message: string, append: bool)
    ensures Occurs(Write(content, message, append), message)
  {
    var r := Write(content, message, append);
    var s := |r| - 1 - |message|;
    assert r[s..s + |message|] == message;
    assert OccursAt(r, message, s);
  }

  /** Appending keeps every earlier occurrence: a file that matched a search still does. */
  lemma {:induction false} AppendKeepsMatches(content: string, message: string, pattern: string)
    requires Occurs(content, pattern)
    ensures Occurs(Write(content, message, true), pattern)
  {
    var s :| 0 <= s <= |content| - |pattern| && OccursAt(content, pattern, s);
    var r := Write(content, message, true);
    assert r[s..s + |pattern|] == content[s..s + |pattern|];
    assert OccursAt(r, pattern, s);
  }
}
