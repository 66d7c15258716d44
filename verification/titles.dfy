/** The title test `_is_valid_title`: long enough, holding a Cyrillic or Latin letter, and not
    mis-decoded UTF-8 (a run of the Latin-1 characters `Ð`/`Ñ` that Cyrillic UTF-8 bytes turn into). */
module Titles {
  import Regex

  predicate IsCyrillicLetter(c: char) {
    'а' <= c <= 'я' || 'А' <= c <= 'Я' || c == 'ё' || c == 'Ё'
  }

  predicate IsLatinLetter(c: char) {
    'a' <= c <= 'z' || 'A' <= c <= 'Z'
  }

  /** `Ð` (U+00D0) and `Ñ` (U+00D1). */
  predicate IsMojibake(c: char) {
    c == '\U{D0}' || c == '\U{D1}'
  }

  /** `[а-яА-ЯёЁ]` */
  const Cyrillic := Regex.In([('а', 'я'), ('А', 'Я'), ('ё', 'ё'), ('Ё', 'Ё')])
  /** `[a-zA-Z]` */
  const Latin := Regex.In([('a', 'z'), ('A', 'Z')])
  /** `[ÐÑÐ]`: the class names `Ð` twice. */
  const Mojibake := Regex.In([('\U{D0}', '\U{D0}'), ('\U{D1}', '\U{D1}'), ('\U{D0}', '\U{D0}')])

  lemma CyrillicClass(c: char)
    ensures Regex.InClass(c, Cyrillic) <==> IsCyrillicLetter(c)
  {
    var rs := [('а', 'я'), ('А', 'Я'), ('ё', 'ё'), ('Ё', 'Ё')];
    if IsCyrillicLetter(c) {
      var k := if 'а' <= c <= 'я' then 0 else if 'А' <= c <= 'Я' then 1 else if c == 'ё' then 2 else 3;
      assert rs[k].0 <= c <= rs[k].1;
    }
  }

  lemma LatinClass(c: char)
    ensures Regex.InClass(c, Latin) <==> IsLatinLetter(c)
  {
    var rs := [('a', 'z'), ('A', 'Z')];
    if IsLatinLetter(c) {
      var k := if 'a' <= c <= 'z' then 0 else 1;
      assert rs[k].0 <= c <= rs[k].1;
    }
  }

  lemma MojibakeClass(c: char)
    ensures Regex.InClass(c, Mojibake) <==> IsMojibake(c)
  {
    var rs := [('\U{D0}', '\U{D0}'), ('\U{D1}', '\U{D1}'), ('\U{D0}', '\U{D0}')];
    if IsMojibake(c) {
      var k := if c == '\U{D0}' then 0 else 1;
      assert rs[k].0 <= c <= rs[k].1;
    }
  }

  /** `re.search` of a single character of the class. */
  predicate HasOne(cls: Regex.CharClass, t: string) {
    Regex.Search(Regex.Pattern([Regex.Atom(cls, 1, Regex.Upto(1))], false), t).Some?
  }

  /** `re.search` of a run of three or more characters of the class. */
  predicate HasRun3(cls: Regex.CharClass, t: string) {
    Regex.Search(Regex.Pattern([Regex.Atom(cls, 3, Regex.Unbounded)], false), t).Some?
  }

  /** `_is_valid_title`: at least five characters, a Cyrillic or Latin letter somewhere, and no
      three `Ð`/`Ñ` in a row. */
  predicate IsValidTitle(t: string) {
    if t == "" || |t| < 5 then false
    else (HasOne(Cyrillic, t) || HasOne(Latin, t)) && !HasRun3(Mojibake, t)
  }

  predicate HasLetter(t: string) {
    exists i :: 0 <= i < |t| && (IsCyrillicLetter(t[i]) || IsLatinLetter(t[i]))
  }

  predicate HasMojibakeRun(t: string) {
    exists i :: 0 <= i && i + 3 <= |t| && IsMojibake(t[i]) && IsMojibake(t[i + 1]) && IsMojibake(t[i + 2])
  }

  /** The regular-expression searches mean what they say. */
  lemma ValidTitleSpec(t: string)
    ensures IsValidTitle(t) <==> |t| >= 5 && HasLetter(t) && !HasMojibakeRun(t)
  {
    LetterSearch(t);
    MojibakeSearch(t);
  }

  lemma LetterSearch(t: string)
    ensures HasOne(Cyrillic, t) || HasOne(Latin, t) <==> HasLetter(t)
  {
    Regex.SingleAtom(Regex.Atom(Cyrillic, 1, Regex.Upto(1)), t);
    Regex.SingleAtom(Regex.Atom(Latin, 1, Regex.Upto(1)), t);
    if HasOne(Cyrillic, t) {
      var i: nat :| Regex.RunAt(t, Cyrillic, i, 1);
      assert Regex.InClass(t[i], Cyrillic);
      CyrillicClass(t[i]);
    } else if HasOne(Latin, t) {
      var i: nat :| Regex.RunAt(t, Latin, i, 1);
      assert Regex.InClass(t[i], Latin);
      LatinClass(t[i]);
    }
    if HasLetter(t) {
      var i :| 0 <= i < |t| && (IsCyrillicLetter(t[i]) || IsLatinLetter(t[i]));
      CyrillicClass(t[i]);
      LatinClass(t[i]);
      if IsCyrillicLetter(t[i]) {
        assert Regex.RunAt(t, Cyrillic, i, 1);
      } else {
        assert Regex.RunAt(t, Latin, i, 1);
      }
    }
  }

  lemma MojibakeSearch(t: string)
    ensures HasRun3(Mojibake, t) <==> HasMojibakeRun(t)
  {
    Regex.SingleAtom(Regex.Atom(Mojibake, 3, Regex.Unbounded), t);
    if HasRun3(Mojibake, t) {
      var i: nat :| Regex.RunAt(t, Mojibake, i, 3);
      RunIsMojibake(t, i);
    }
    if HasMojibakeRun(t) {
      var i :| 0 <= i && i + 3 <= |t| && IsMojibake(t[i]) && IsMojibake(t[i + 1]) && IsMojibake(t[i + 2]);
      MojibakeIsRun(t, i);
    }
  }

  lemma RunIsMojibake(t: string, i: nat)
    requires Regex.RunAt(t, Mojibake, i, 3)
    ensures IsMojibake(t[i]) && IsMojibake(t[i + 1]) && IsMojibake(t[i + 2])
  {
    assert Regex.InClass(t[i], Mojibake) && Regex.InClass(t[i + 1], Mojibake) && Regex.InClass(t[i + 2], Mojibake);
    MojibakeClass(t[i]);
    MojibakeClass(t[i + 1]);
    MojibakeClass(t[i + 2]);
  }

  lemma MojibakeIsRun(t: string, i: nat)
    requires i + 3 <= |t| && IsMojibake(t[i]) && IsMojibake(t[i + 1]) && IsMojibake(t[i + 2])
    ensures Regex.RunAt(t, Mojibake, i, 3)
  {
    forall j | i <= j < i + 3
      ensures Regex.InClass(t[j], Mojibake)
    {
      MojibakeClass(t[j]);
    }
  }
}
