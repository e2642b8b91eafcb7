/**
 The `_q` / `_a` postfixes (`POSTFIXES` in scripts/mymodule.py).

 Every later stage names its files `<title><postfix>.<ext>`: the question
 document with `_q`, the answer document with `_a`, where `<title>` is the
 sanitised page title.
 */
module Postfixes {
  import opened TitleSanitiser

  const QuestionPostfix: string := "_q"
  const AnswerPostfix: string := "_a"

  /** The file name a stage writes for one title, postfix and extension. */
  function FileName(title: string, postfix: string, ext: string): (r: string)
    ensures |r| == |title| + |postfix| + |ext|
    ensures r[..|title|] == title
  {
    title + postfix + ext
  }

  /** The question file of one page never coincides with the answer file of any page. */
  lemma QuestionAndAnswerNamesDiffer(t1: string, t2: string, ext: string)
    ensures FileName(t1, QuestionPostfix, ext) != FileName(t2, AnswerPostfix, ext)
  {
    var q := FileName(t1, QuestionPostfix, ext);
    var a := FileName(t2, AnswerPostfix, ext);
    if |q| == |a| {
      assert q[|t1| + 1] == 'q';
      assert a[|t2| + 1] == 'a';
    }
  }

  /**
   Two file-name strings built with the same postfix and extension are equal
   only when the titles are equal (as strings: a case-insensitive file system
   may still treat two such names as one file).
   */
  lemma FileNameDeterminesTitle(t1: string, t2: string, postfix: string, ext: string)
    requires FileName(t1, postfix, ext) == FileName(t2, postfix, ext)
    ensures t1 == t2
  {
  }

  /** A sanitised title plus either postfix still has none of the nine characters and no double space. */
  lemma StemIsClean(title: string, postfix: string)
    requires postfix == QuestionPostfix || postfix == AnswerPostfix
    ensures NoForbidden(ModifyTitle(title) + postfix)
    ensures NoDoubleSpace(ModifyTitle(title) + postfix)
  {
  }
}
