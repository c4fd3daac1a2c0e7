/**
 * The enrollment checks the scripts and the GUI share: the student-id rule
 * (written out in four places in the source) and the name rule.
 */
module Validation {
  import opened Text

  /** `s.isdigit() and len(s) == 8`, applied to an already stripped id. */
  predicate IsStudentId(s: string) {
    IsDigits(s) && |s| == 8
  }

  /** The id rule states "exactly eight ASCII digits". */
  lemma StudentIdShape(s: string)
    ensures IsStudentId(s) <==> |s| == 8 && forall i :: 0 <= i < 8 ==> IsDigit(s[i])
  {
  }

  /** `name.replace(" ", "").replace("-", "")`. */
  function CleanName(name: string): string {
    Remove(Remove(name, ' '), '-')
  }

  /** `clean_name.isalpha()`. */
  predicate IsNameText(name: string) {
    IsAlpha(CleanName(name))
  }

  predicate NameChar(c: char) {
    IsLetter(c) || c == ' ' || c == '-'
  }

  predicate OnlyNameChars(name: string) {
    forall i :: 0 <= i < |name| ==> NameChar(name[i])
  }

  predicate HasLetter(name: string) {
    exists i :: 0 <= i < |name| && IsLetter(name[i])
  }

  /** A name passes iff it is made of letters, spaces and hyphens and holds
      at least one letter; so the empty name and a name of only spaces and
      hyphens fail, whatever their length. */
  lemma NameTextIff(name: string)
    ensures IsNameText(name) <==> OnlyNameChars(name) && HasLetter(name)
  {
    var t := CleanName(name);
    RemoveMembers(name, ' ');
    RemoveMembers(Remove(name, ' '), '-');
    assert forall x :: x in t <==> x in name && x != ' ' && x != '-';
    if IsNameText(name) {
      forall i | 0 <= i < |name| ensures NameChar(name[i]) {
        if name[i] != ' ' && name[i] != '-' {
          assert name[i] in t;
          var j :| 0 <= j < |t| && t[j] == name[i];
        }
      }
      assert t[0] in name;
      var j :| 0 <= j < |name| && name[j] == t[0];
      assert IsLetter(name[j]);
    }
    if OnlyNameChars(name) && HasLetter(name) {
      var i :| 0 <= i < |name| && IsLetter(name[i]);
      assert name[i] in t;
      forall j | 0 <= j < |t| ensures IsLetter(t[j]) {
        assert t[j] in name;
        var k :| 0 <= k < |name| && name[k] == t[j];
      }
    }
  }
}
