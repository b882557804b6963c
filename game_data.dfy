/**
 * The static data of the game: the virtual filesystem under `krustykrab`, the clue
 * registry keyed by root-relative file path, the suspect's ID, and the fixed texts the
 * interpreter prints. Nothing here changes after construction.
 */
module GameData {
  import opened Wrappers

  /** A filesystem node: a file with its content, or a directory with its entries in
      declaration order and a flag that hides it from a plain `ls`. */
  datatype Node = File(content: string) | Dir(children: seq<Entry>, hidden: bool)

  /** One named entry of a directory. */
  datatype Entry = Entry(name: string, node: Node)

  /** The entry named `name` in `dir`, as a property lookup on the directory's object;
      the first such entry when names repeat (they never do in the tree below). */
  function Find(dir: seq<Entry>, name: string): (r: Option<Node>)
    ensures r.None? <==> forall i :: 0 <= i < |dir| ==> dir[i].name != name
    ensures r.Some? ==> Entry(name, r.value) in dir
  {
    if dir == [] then None
    else if dir[0].name == name then Some(dir[0].node)
    else Find(dir[1..], name)
  }

  /** The name of the root directory: the first segment of every session path. */
  const RootName: string := "krustykrab"

  /** The contents of `krustykrab`, in the declaration order of the source; each
      directory's entries are the constant named after it. */
  const FileSystem: seq<Entry> := [
    Entry("orders", Dir(Orders, false)),
    Entry("inventory", Dir(Inventory, false)),
    Entry("staff", Dir(Staff, false)),
    Entry("financials", Dir(Financials, false)),
    Entry("misc", Dir(Misc, false))
  ]

  const Orders: seq<Entry> := [
    Entry("order1.txt", File("Order #998: 1 Krabby Patty, extra pickles.")),
    Entry("order2.txt", File("Order #999: 2 Coral Bits, 1 Kelp Shake.")),
    Entry("backwards.txt", File("if you want to go back, use cd .."))
  ]

  const Inventory: seq<Entry> := [
    Entry("important_readme.txt", File("Tip: Use ls -a to see hidden files!")),
    Entry("supply_list.txt", File("Patties: 400\nBuns: 350\nSecret Sauce: [REDACTED]")),
    Entry("stock_check.txt", File("Need more napkins. Patrick ate them again."))
  ]

  const Staff: seq<Entry> := [
    Entry("spongebob", Dir(SpongeBob, false)),
    Entry("kai_cenat", Dir(KaiCenat, false)),
    Entry("skibidi", Dir(Skibidi, false)),
    Entry("john_pork", Dir(JohnPork, false)),
    Entry("quandale_dingle", Dir(QuandaleDingle, false)),
    Entry("plankton", Dir(Plankton, false)),
    Entry("mickey_mouse", Dir(MickeyMouse, false)),
    Entry("labubu", Dir(Labubu, false)),
    Entry("chowder", Dir(Chowder, false))
  ]

  const SpongeBob: seq<Entry> := [
    Entry("tasks.txt", File("1. Feed Gary\n2. Work\n3. Jellyfishing")),
    Entry("shift_log.txt", File("Arrived: 04:00 AM. Ready!")),
    Entry("description.txt", File("Lives in a pineapple under the sea"))
  ]

  const KaiCenat: seq<Entry> := [
    Entry("wifi_notes.txt", File("WiFi Password: RIZZ_GOD_123")),
    Entry("public_alert.txt", File("Streaming in the kitchen is NOT allowed.")),
    Entry("description.txt", File("a funny and/or not funny streamer"))
  ]

  const Skibidi: seq<Entry> := [
    Entry("playlist.txt", File("Dop Dop Yes Yes (10 hour version)")),
    Entry("notes.txt", File("Where is the camera man?")),
    Entry("description.txt", File("6...7"))
  ]

  const JohnPork: seq<Entry> := [
    Entry("report.txt", File("Suspicious activity detected. MFA enabled.")),
    Entry("access.log", File("Login success. Login success.")),
    Entry("daily_summary.txt", File("Calling everyone. No one answers.")),
    Entry("description.txt", File("The pig. The myth. The legend."))
  ]

  const QuandaleDingle: seq<Entry> := [
    Entry("email.txt", File("CLICK HERE FOR FREE VBUCKS -> [LINK CLICKED]")),
    Entry("message.txt", File("Hey guys it's Quandale Dingle here.")),
    Entry("snack_list.txt", File("Items stolen: 12")),
    Entry("description.txt", File("Idek who this guy is bro"))
  ]

  const Plankton: seq<Entry> := [
    Entry("lab_notes.txt", File("Plan Z failed. Again. Need new strategy.")),
    Entry("blueprint.txt", File("Mega Bucket Helmet v4.0")),
    Entry("decoy_formula.txt", File("Ingredients: 1% Evil, 99% Hot Gas")),
    Entry("description.txt", File("50 percent sea/50 percent weed"))
  ]

  const MickeyMouse: seq<Entry> := [
    Entry("description.txt", File("A rodent who has his own theme park")),
    Entry("work", Dir([
      Entry("staff_list.txt", File("Buying out the competition...")),
      Entry("reports.txt", File("Profit margins are up."))
    ], false)),
    Entry(".private", Dir([
      Entry("discovery.txt", File("PROTECTED FILE. ENTER ID TO VIEW.")),
      Entry("project.docx", File("Minnie keeps asking for Krabby Patties... I need a plan.")),
      Entry("budget.xlsx", File("Bribe Budget: $1,000,000"))
    ], true))
  ]

  const Labubu: seq<Entry> := [
    Entry("experiment.txt", File("Subject 626... wait wrong franchise.")),
    Entry("lab_report.txt", File("Teeth are sharp.")),
    Entry("description.txt", File("A demonic stuffed animal thing"))
  ]

  const Chowder: seq<Entry> := [
    Entry("recipe_notes.txt", File("Radda radda radda.")),
    Entry("encrypt_me.txt", File("Taking everything that isn't nailed down.")),
    Entry("description.txt", File("Does anyone even watch this show?"))
  ]

  const Financials: seq<Entry> := [
    Entry("employee_ids.txt", File(
      "MIC1234   Mickey Mouse\n"
      + "PLNK0001  Plankton\n"
      + "SPB0002   SpongeBob SquarePants\n"
      + "JPK0003   John Pork\n"
      + "QDL0004   Quandale Dingle\n"
      + "KC0005    Kai Cenat\n"
      + "SKB0006   Skibidi\n"
      + "LB0007    Labubu\n"
      + "CHW0008   Chowder"))
  ]

  const Misc: seq<Entry> := [
    Entry("temp.log", File("System overheating...")),
    Entry("junk.txt", File("asdfghjkl")),
    Entry("randomfile.txt", File("Nothing to see here."))
  ]

  /** The key of the one protected file in the clue registry. */
  const ProtectedKey: string := "staff/mickey_mouse/.private/discovery.txt"

  /** The clue registry: root-relative, slash-joined file path to clue text. */
  const Clues: map<string, string> := map[
    "staff/plankton/lab_notes.txt" := "Plankton tried accessing the formula but failed.",
    "staff/quandale_dingle/email.txt" := "Quandale clicked a phishing email.",
    "staff/john_pork/report.txt" := "John Pork used MFA successfully.",
    ProtectedKey := "Mickey Mouse stole the Krusty Krab formula!"
  ]

  /** The ID that unlocks the protected file. */
  const MickeyId: string := "MIC1234"

  /** The banner line printed at start-up. */
  const Banner: string := "WLP x S.O.F STEAM EXP0"

  /** The story and command list printed at start-up and by `help`. */
  const StoryIntro: string := @"
Welcome We Love Philly cyber detective, to Bikini Bottom! My name is Squidward. 
The Krusty Krab formula has been stolen!

Everyone suspects Plankton but I have my doubts.  
Investigate the folders. Find the thief. Not that I care! *Ahahhhh Ahahh laughs in clarinet*

Commands:
- ls            : List folders/files
- cd <folder>   : Change directory
- cd ..         : Go back
- cd /<path>    : Jump to full path
- cat <file>    : Open a file
- pwd           : Print working directory
- whoami        : Show current user
- help          : Show this list
- clear         : Clear terminal
- exit          : Quit
"

  /** The picture printed at start-up. */
  const AsciiArt: string := @"
        .--'''''''''--.
     .'      .---.      '.
    /    .-----------.    \
   /        .-----.        \
   |       .-.   .-.       |
   |      /   \ /   \      |
    \    | .-. | .-. |    /
     '-._| | | | | | |_.-'
         | '-' | '-' |
          \___/ \___/
       _.-'  /   \  `-._
     .' _.--|     |--._ '.
     ' _...-|     |-..._ '
            |     |
            '.___.'
              | |
             _| |_
            /\( )/\
           /  ` '  \
          | |     | |
          '-'     '-'
          | |     | |
          | |     | |
          | |-----| |
       .`|  |     | |/`.
       |    |     |    |
       '._.'| .-. |'._.'
             \ | /
             | | |
             | | |
             | | |
            /| | |\
          .'_| | |_\
         `. | | | .'
       .    /  |  \    .
      /o`.-'  / \  `-.`o\
     /o  o\ .'   `. /o  o\
     `.___.'       `.___.'
"

  // ---------------------------------------------------------------------------
  // Facts about the tree that the interpreter relies on
  // ---------------------------------------------------------------------------

  /** The path, below the root, of the one hidden directory. */
  const PrivateDir: seq<string> := ["staff", "mickey_mouse", ".private"]

  /** No two entries of `dir` share a name. */
  predicate Distinct(dir: seq<Entry>)
  {
    forall i, j :: 0 <= i < j < |dir| ==> dir[i].name != dir[j].name
  }

  /** No directory anywhere below `dir` has two entries with the same name, so an
      association list is a faithful model of the source's objects. */
  predicate UniqueNames(dir: seq<Entry>)
  {
    Distinct(dir) && forall i :: 0 <= i < |dir| && dir[i].node.Dir? ==> UniqueNames(dir[i].node.children)
  }

  /** No entry anywhere below `dir` is called `name`. */
  predicate NoEntryNamed(dir: seq<Entry>, name: string)
  {
    forall i :: 0 <= i < |dir| ==>
      dir[i].name != name && (dir[i].node.Dir? ==> NoEntryNamed(dir[i].node.children, name))
  }

  /** Every hidden directory below `dir` (whose own path is `prefix`) has the path `at`. */
  predicate HiddenOnlyAt(dir: seq<Entry>, prefix: seq<string>, at: seq<string>)
  {
    forall i :: 0 <= i < |dir| && dir[i].node.Dir? ==>
      (dir[i].node.hidden ==> prefix + [dir[i].name] == at)
      && HiddenOnlyAt(dir[i].node.children, prefix + [dir[i].name], at)
  }

  /** Every entry called `name` below `dir` (whose own path is `prefix`) has the path `at`. */
  predicate NamedOnlyAt(dir: seq<Entry>, prefix: seq<string>, name: string, at: seq<string>)
  {
    forall i :: 0 <= i < |dir| ==>
      (dir[i].name == name ==> prefix + [name] == at)
      && (dir[i].node.Dir? ==> NamedOnlyAt(dir[i].node.children, prefix + [dir[i].name], name, at))
  }

  /** Every entry of `dir` is a directory holding a `description.txt` file. */
  predicate EachDescribed(dir: seq<Entry>)
  {
    forall i :: 0 <= i < |dir| ==> dir[i].node.Dir? && Described(dir[i].node.children)
  }

  /** No entry of `dir` itself is called `name`. */
  predicate Avoids(dir: seq<Entry>, name: string)
  {
    forall i :: 0 <= i < |dir| ==> dir[i].name != name
  }

  /** A directory of files only, with distinct names, none of them the root's name or
      the protected file's name. */
  predicate Plain(dir: seq<Entry>)
  {
    (forall i :: 0 <= i < |dir| ==> dir[i].node.File?)
    && Distinct(dir) && Avoids(dir, RootName) && Avoids(dir, "discovery.txt")
  }

  /** A directory of plain files has unique names below it. */
  lemma PlainUnique(dir: seq<Entry>)
    requires Plain(dir)
    ensures UniqueNames(dir)
  {
  }

  /** A directory of plain files has no entry named like the root. */
  lemma PlainAvoidsRoot(dir: seq<Entry>)
    requires Plain(dir)
    ensures NoEntryNamed(dir, RootName)
  {
  }

  /** A directory of plain files holds no hidden directory, wherever it sits. */
  lemma PlainNotHidden(dir: seq<Entry>, prefix: seq<string>)
    requires Plain(dir)
    ensures HiddenOnlyAt(dir, prefix, PrivateDir)
  {
  }

  /** A directory of plain files holds no protected file, wherever it sits. */
  lemma PlainNotProtected(dir: seq<Entry>, prefix: seq<string>)
    requires Plain(dir)
    ensures NamedOnlyAt(dir, prefix, "discovery.txt", PrivateDir + ["discovery.txt"])
  {
  }

  lemma OrdersPlain()
    ensures Plain(Orders)
  {
  }

  lemma InventoryPlain()
    ensures Plain(Inventory)
  {
  }

  lemma SpongeBobPlain()
    ensures Plain(SpongeBob)
  {
  }

  lemma KaiCenatPlain()
    ensures Plain(KaiCenat)
  {
  }

  lemma SkibidiPlain()
    ensures Plain(Skibidi)
  {
  }

  lemma JohnPorkPlain()
    ensures Plain(JohnPork)
  {
  }

  lemma QuandaleDinglePlain()
    ensures Plain(QuandaleDingle)
  {
  }

  lemma PlanktonPlain()
    ensures Plain(Plankton)
  {
  }

  lemma LabubuPlain()
    ensures Plain(Labubu)
  {
  }

  lemma ChowderPlain()
    ensures Plain(Chowder)
  {
  }

  lemma FinancialsPlain()
    ensures Plain(Financials)
  {
  }

  lemma MiscPlain()
    ensures Plain(Misc)
  {
  }

  lemma AllPlain()
    ensures Plain(Orders) && Plain(Inventory) && Plain(Financials) && Plain(Misc)
    ensures Plain(SpongeBob) && Plain(KaiCenat) && Plain(Skibidi) && Plain(JohnPork)
    ensures Plain(QuandaleDingle) && Plain(Plankton) && Plain(Labubu) && Plain(Chowder)
  {
    OrdersPlain();
    InventoryPlain();
    SpongeBobPlain();
    KaiCenatPlain();
    SkibidiPlain();
    JohnPorkPlain();
    QuandaleDinglePlain();
    PlanktonPlain();
    LabubuPlain();
    ChowderPlain();
    FinancialsPlain();
    MiscPlain();
  }

  lemma TopNamesDistinct()
    ensures Distinct(FileSystem) && Distinct(Staff)
  {
  }

  lemma MickeyMouseUnique()
    ensures UniqueNames(MickeyMouse)
  {
    assert UniqueNames(MickeyMouse[1].node.children);
    assert UniqueNames(MickeyMouse[2].node.children);
  }

  lemma MickeyMouseAvoidsRoot()
    ensures NoEntryNamed(MickeyMouse, RootName)
  {
  }

  lemma MickeyMouseHidden()
    ensures HiddenOnlyAt(MickeyMouse, ["staff"] + ["mickey_mouse"], PrivateDir)
  {
    assert ["staff"] + ["mickey_mouse"] + [".private"] == PrivateDir;
  }

  lemma MickeyMouseProtected()
    ensures NamedOnlyAt(MickeyMouse, ["staff"] + ["mickey_mouse"], "discovery.txt", PrivateDir + ["discovery.txt"])
  {
    assert ["staff"] + ["mickey_mouse"] + [".private"] + ["discovery.txt"] == PrivateDir + ["discovery.txt"];
  }

  lemma StaffUnique()
    ensures UniqueNames(Staff)
  {
    AllPlain();
    PlainUnique(SpongeBob);
    PlainUnique(KaiCenat);
    PlainUnique(Skibidi);
    PlainUnique(JohnPork);
    PlainUnique(QuandaleDingle);
    PlainUnique(Plankton);
    PlainUnique(Labubu);
    PlainUnique(Chowder);
    MickeyMouseUnique();
  }

  /** Every directory lists each name at most once. */
  lemma TreeNamesUnique()
    ensures UniqueNames(FileSystem)
  {
    AllPlain();
    PlainUnique(Orders);
    PlainUnique(Inventory);
    PlainUnique(Financials);
    PlainUnique(Misc);
    StaffUnique();
  }

  lemma StaffAvoidsRoot()
    ensures NoEntryNamed(Staff, RootName)
  {
    AllPlain();
    PlainAvoidsRoot(SpongeBob);
    PlainAvoidsRoot(KaiCenat);
    PlainAvoidsRoot(Skibidi);
    PlainAvoidsRoot(JohnPork);
    PlainAvoidsRoot(QuandaleDingle);
    PlainAvoidsRoot(Plankton);
    PlainAvoidsRoot(Labubu);
    PlainAvoidsRoot(Chowder);
    MickeyMouseAvoidsRoot();
  }

  /** No entry anywhere is named like the root, so dropping the root's name from an
      absolute path never drops a real directory. */
  lemma RootNameUnused()
    ensures NoEntryNamed(FileSystem, RootName)
  {
    AllPlain();
    PlainAvoidsRoot(Orders);
    PlainAvoidsRoot(Inventory);
    PlainAvoidsRoot(Financials);
    PlainAvoidsRoot(Misc);
    StaffAvoidsRoot();
  }

  lemma StaffHidden()
    ensures HiddenOnlyAt(Staff, [] + ["staff"], PrivateDir)
  {
    AllPlain();
    PlainNotHidden(SpongeBob, ["staff"] + ["spongebob"]);
    PlainNotHidden(KaiCenat, ["staff"] + ["kai_cenat"]);
    PlainNotHidden(Skibidi, ["staff"] + ["skibidi"]);
    PlainNotHidden(JohnPork, ["staff"] + ["john_pork"]);
    PlainNotHidden(QuandaleDingle, ["staff"] + ["quandale_dingle"]);
    PlainNotHidden(Plankton, ["staff"] + ["plankton"]);
    PlainNotHidden(Labubu, ["staff"] + ["labubu"]);
    PlainNotHidden(Chowder, ["staff"] + ["chowder"]);
    MickeyMouseHidden();
    assert [] + ["staff"] == ["staff"];
  }

  /** `staff/mickey_mouse/.private` is the only hidden directory. */
  lemma OnlyPrivateHidden()
    ensures HiddenOnlyAt(FileSystem, [], PrivateDir)
  {
    AllPlain();
    PlainNotHidden(Orders, [] + ["orders"]);
    PlainNotHidden(Inventory, [] + ["inventory"]);
    PlainNotHidden(Financials, [] + ["financials"]);
    PlainNotHidden(Misc, [] + ["misc"]);
    StaffHidden();
  }

  lemma StaffProtected()
    ensures NamedOnlyAt(Staff, [] + ["staff"], "discovery.txt", PrivateDir + ["discovery.txt"])
  {
    AllPlain();
    PlainNotProtected(SpongeBob, ["staff"] + ["spongebob"]);
    PlainNotProtected(KaiCenat, ["staff"] + ["kai_cenat"]);
    PlainNotProtected(Skibidi, ["staff"] + ["skibidi"]);
    PlainNotProtected(JohnPork, ["staff"] + ["john_pork"]);
    PlainNotProtected(QuandaleDingle, ["staff"] + ["quandale_dingle"]);
    PlainNotProtected(Plankton, ["staff"] + ["plankton"]);
    PlainNotProtected(Labubu, ["staff"] + ["labubu"]);
    PlainNotProtected(Chowder, ["staff"] + ["chowder"]);
    MickeyMouseProtected();
    assert [] + ["staff"] == ["staff"];
  }

  /** The protected file name occurs nowhere but inside `staff/mickey_mouse/.private`. */
  lemma DiscoveryOnlyInPrivate()
    ensures NamedOnlyAt(FileSystem, [], "discovery.txt", PrivateDir + ["discovery.txt"])
  {
    AllPlain();
    PlainNotProtected(Orders, [] + ["orders"]);
    PlainNotProtected(Inventory, [] + ["inventory"]);
    PlainNotProtected(Financials, [] + ["financials"]);
    PlainNotProtected(Misc, [] + ["misc"]);
    StaffProtected();
  }

  /** `dir` holds a `description.txt` file. */
  predicate Described(dir: seq<Entry>)
  {
    exists k :: 0 <= k < |dir| && dir[k].name == "description.txt" && dir[k].node.File?
  }

  /** In a directory with distinct names, a described directory's `description.txt`
      is what a lookup finds. */
  lemma {:induction false} DescribedFound(dir: seq<Entry>)
    requires Distinct(dir) && Described(dir)
    ensures Find(dir, "description.txt").Some? && Find(dir, "description.txt").value.File?
  {
    var k :| 0 <= k < |dir| && dir[k].name == "description.txt" && dir[k].node.File?;
    if k > 0 {
      assert Described(dir[1..]) by { assert dir[1..][k - 1] == dir[k]; }
      DescribedFound(dir[1..]);
    }
  }

  lemma FirstStaffDescribed()
    ensures Described(SpongeBob) && Described(KaiCenat) && Described(Skibidi)
  {
    assert SpongeBob[2].name == "description.txt";
    assert KaiCenat[2].name == "description.txt";
    assert Skibidi[2].name == "description.txt";
  }

  lemma MiddleStaffDescribed()
    ensures Described(JohnPork) && Described(QuandaleDingle) && Described(Plankton)
  {
    assert JohnPork[3].name == "description.txt";
    assert QuandaleDingle[3].name == "description.txt";
    assert Plankton[3].name == "description.txt";
  }

  lemma LastStaffDescribed()
    ensures Described(MickeyMouse) && Described(Labubu) && Described(Chowder)
  {
    assert MickeyMouse[0].name == "description.txt";
    assert Labubu[2].name == "description.txt";
    assert Chowder[2].name == "description.txt";
  }

  /** Every staff directory carries a description. */
  lemma StaffDescribed()
    ensures |Staff| == 9 && EachDescribed(Staff)
  {
    FirstStaffDescribed();
    MiddleStaffDescribed();
    LastStaffDescribed();
  }

  /** The ID is written in upper case, and it heads the first line of `employee_ids.txt`. */
  lemma MickeyIdListed()
    ensures forall i :: 0 <= i < |MickeyId| ==> 'A' <= MickeyId[i] <= 'Z' || '0' <= MickeyId[i] <= '9'
    ensures Financials[0].name == "employee_ids.txt" && Financials[0].node.File?
    ensures |Financials[0].node.content| >= |MickeyId| && Financials[0].node.content[..|MickeyId|] == MickeyId
  {
    var first := "MIC1234   Mickey Mouse\n";
    var content := Financials[0].node.content;
    assert content[..|first|] == first;
    assert first[..|MickeyId|] == MickeyId;
  }
}
