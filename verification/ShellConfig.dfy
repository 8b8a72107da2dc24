/** How the jail shell chooses its configuration section and where it reads it. */
module ShellConfig {
  import opened CStrings
  import opened IniScan
  import opened IniDoc
  import opened IniLookup
  import opened IniNames

  /** The user's own section, else the group's, else the default one. */
  function Choice(names: seq<string>, user: string, group: string): Option<string> {
    if user in names then Some(user)
    else if "group " + group in names then Some("group " + group)
    else if "DEFAULT" in names then Some("DEFAULT")
    else None
  }

  /** The section is chosen among the names the file yields, whatever is in the file; the
      position is computed from where the search for it stopped. */
  method ChooseSection(ip: IniFile, user: string, group: string) returns (section: Option<string>, pos: int)
    modifies ip
    ensures section == Choice(Names(ip.content), user, group)
    ensures var names, groupsec := Names(ip.content), "group " + group;
            && (user in names ==> section == Some(user))
            && (user !in names && groupsec in names ==> section == Some(groupsec))
            && (user !in names && groupsec !in names && "DEFAULT" in names ==> section == Some("DEFAULT"))
            && (user !in names && groupsec !in names && "DEFAULT" !in names ==> section == None)
    ensures section.Some? ==> FindFrom(ip.content, section.value).Some?
                              && pos == |ip.content| - |FindFrom(ip.content, section.value).value| - |section.value| - 2
  {
    var groupsec := "group " + group;
    section, pos := None, 0;
    FoundIfNamed(ip.content, user);
    FoundIfNamed(ip.content, groupsec);
    FoundIfNamed(ip.content, "DEFAULT");
    var has := ip.HasSection(user);
    if has {
      section := Some(user);
    } else {
      has := ip.HasSection(groupsec);
      if has {
        section := Some(groupsec);
      } else {
        has := ip.HasSection("DEFAULT");
        if has {
          section := Some("DEFAULT");
        }
      }
    }
    if section.Some? {
      pos := ip.pos - |section.value| - 2;
    }
  }

  /** On a document whose brackets do no harm the choice is made among its own sections. */
  lemma ChoosesAmongSections(d: Doc, user: string, group: string)
    requires ValidDoc(d) && Harmless(d)
    ensures Choice(Names(DocText(d)), user, group) == Choice(SectionNames(d), user, group)
  {
    NamesRoundTrip(d);
  }

  /** With no bracket before the first heading of that name, the position computed is
      that of the heading's own bracket. */
  lemma {:induction false} PositionOfSection(d: Doc, j: nat)
    requires ValidDoc(d) && j < |d.sections| && ClearTo(d, j + 1)
    requires d.sections[j].name !in SectionNames(d)[..j]
    ensures var found := FindFrom(DocText(d), d.sections[j].name);
            found.Some? && |DocText(d)| - |found.value| - |d.sections[j].name| - 2 == |Before(d, j)|
  {
    assert SectionNames(d)[0..j] == SectionNames(d)[..j];
    FindsFirst(d, 0, j);
    Located(d, j);
  }

  /** Every key is then read from the chosen section itself, whatever the other entries
      hold, although an earlier section's name may be a prefix of the chosen one. */
  lemma {:induction false} ReadsChosenSection(d: Doc, j: nat, q: Query)
    requires ValidQuery(q) && ValidDoc(d) && j < |d.sections| && q.section == d.sections[j].name
    ensures |Before(d, j)| <= |DocText(d)|
    ensures Look(q, DocText(d)[|Before(d, j)|..]) ==
            match FirstEntry(d.sections[j].lines, q.key)
            case Some(value) => Found(Fit(value, q.bufferlen))
            case None => if j + 1 == |d.sections| then Found("") else NotFound
  {
    Located(d, j);
    OwnKeysOnly(d, j, q);
    LookAtSection(d, j, 0, q);
  }
}
