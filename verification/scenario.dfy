/** A worked example: a sample contact line, with the fields the model
    determines for it. */
module Scenario {
  import opened Wrappers
  import opened Text
  import opened Lines
  import opened Experience
  import Phone
  import Email

  const Lead: string := "Contact: John Doe, "
  const Address: string := "john.doe@example.com"
  const Number: string := "+1-555-123-4567"
  const Closing: string := ". I worked as an intern."

  /** The line, assembled from its parts so that the positions of the
      address (19 to 39) and of the number (41 to 56) are evident. */
  const ContactLine: string := Lead + Address + ", " + Number + Closing

  /** No character of `s` is one of `cs`. */
  predicate FreeOf(s: string, cs: string) {
    forall k | 0 <= k < |s| :: s[k] !in cs
  }

  /** Where the number sits, and that it has the phone shape. */
  lemma NumberSpan()
    ensures ContactLine[41..56] == Number && Phone.IsPhone(ContactLine[41..56])
    ensures ContactLine[56] == '.'
  {
    assert ContactLine[41..56] == Number;
    assert Phone.IsPhone("+1-555-123-4567");
  }

  /** Nothing before the number is a digit or `+`. */
  lemma NothingBeforeNumber()
    ensures forall k | 0 <= k < 41 :: !IsDigit(ContactLine[k]) && ContactLine[k] != '+'
  {
    LeadHasNoDigit();
    AddressHasNoDigit();
    assert ContactLine[39] == ',' && ContactLine[40] == ' ';
  }

  /** The lead-in has no digit and no `+`. */
  lemma LeadHasNoDigit()
    ensures forall k | 0 <= k < 19 :: !IsDigit(ContactLine[k]) && ContactLine[k] != '+'
  {
    assert FreeOf("Contact: John Doe, ", "0123456789+");
    forall k | 0 <= k < 19
      ensures !IsDigit(ContactLine[k]) && ContactLine[k] != '+'
    {
      assert ContactLine[k] == Lead[k];
      assert Lead[k] !in "0123456789+";
    }
  }

  /** The address has no digit and no `+`. */
  lemma AddressHasNoDigit()
    ensures forall k | 19 <= k < 39 :: !IsDigit(ContactLine[k]) && ContactLine[k] != '+'
  {
    assert FreeOf("john.doe@example.com", "0123456789+");
    forall k | 19 <= k < 39
      ensures !IsDigit(ContactLine[k]) && ContactLine[k] != '+'
    {
      assert ContactLine[k] == Address[k - 19];
      assert Address[k - 19] !in "0123456789+";
    }
  }

  /** The phone number is found with its `+` and stops before the full stop. */
  lemma ContactLinePhone()
    ensures Phone.ExtractPhone(ContactLine) == Some(Number)
  {
    NumberSpan();
    NothingBeforeNumber();
    Phone.NoPhoneWithoutLead(ContactLine, 41);
    Phone.PhoneStopsAt(ContactLine, 41, 56);
    assert Phone.LeftmostLongestPhone(ContactLine, 41, 56);
    var i: nat, j: nat :| Phone.LeftmostLongestPhone(ContactLine, i, j)
      && Phone.ExtractPhone(ContactLine).value == ContactLine[i..j];
    Phone.LeftmostLongestUnique(ContactLine, i, j, 41, 56);
  }

  /** Where the address sits, and that it has the address shape. */
  lemma AddressSpan()
    ensures ContactLine[19..39] == Address && Email.IsEmail(ContactLine[19..39])
    ensures ContactLine[18] == ' ' && ContactLine[39] == ','
  {
    assert ContactLine[19..39] == Address;
    assert Email.EmailSplit("john.doe@example.com", 8, 16);
  }

  /** No `@` comes before the address. */
  lemma NoAtBeforeAddress()
    ensures forall k | 0 <= k < 18 :: ContactLine[k] != '@'
  {
    assert ContactLine[..18] == "Contact: John Doe,";
    assert FreeOf("Contact: John Doe,", "@");
    forall k | 0 <= k < 18
      ensures ContactLine[k] != '@'
    {
      assert ContactLine[k] == ContactLine[..18][k];
    }
  }

  /** The address is found whole, from its first local character up to the
      comma. */
  lemma ContactLineEmail()
    ensures Email.ExtractEmail(ContactLine) == Some(Address)
  {
    AddressSpan();
    NoAtBeforeAddress();
    Email.NoEmailBefore(ContactLine, 18);
    Email.EmailStopsAt(ContactLine, 19, 39);
    assert Email.LeftmostLongestEmail(ContactLine, 19, 39);
    var i: nat, j: nat :| Email.LeftmostLongestEmail(ContactLine, i, j)
      && Email.ExtractEmail(ContactLine).value == ContactLine[i..j];
    Email.LeftmostLongestUnique(ContactLine, i, j, 19, 39);
  }

  /** The line is a single line. */
  lemma ContactLineIsOneLine()
    ensures Split(ContactLine) == [ContactLine]
  {
    assert FreeOf("Contact: John Doe, ", "\n") && FreeOf("john.doe@example.com", "\n");
    assert FreeOf("+1-555-123-4567", "\n") && FreeOf(". I worked as an intern.", "\n");
    assert '\n' !in ContactLine;
    SplitSinglePiece(ContactLine);
  }

  /** The line mentions `worked`. */
  lemma ContactLineMentionsWorked()
    ensures MentionsKeyword(ContactLine)
  {
    assert ContactLine[60..66] == "worked";
    LowerSlice(ContactLine, 60, 66);
    assert Lower("worked") == "worked";
    assert OccursAt(Lower(ContactLine), "worked", 60);
    AnyOccursIff(Lower(ContactLine), Keywords);
    assert "worked" in Keywords;
  }

  /** The line has no surrounding whitespace. */
  lemma ContactLineIsStripped()
    ensures Strip(ContactLine) == ContactLine
  {
    assert !IsSpace(ContactLine[0]) && !IsSpace(ContactLine[79]);
    assert StripSpan(ContactLine) == (0, |ContactLine|);
  }

  /** The line mentions `worked` and `intern`, so it is the one snippet. */
  lemma ContactLineExperience()
    ensures ExtractExperience(ContactLine) == [ContactLine]
  {
    ContactLineIsOneLine();
    ContactLineMentionsWorked();
    ContactLineIsStripped();
    assert Relevant([ContactLine], Keywords) == [ContactLine] + Relevant([], Keywords);
  }
}
