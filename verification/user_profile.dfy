/** The user profile generator (lecture_2/main.py): a life stage computed from the birth
    year, and the hobbies typed before `stop`. */
module UserProfile {
  import opened Collections

  datatype LifeStage = Child | Teenager | Adult | Unknown

  /** The year the program treats as the current one. */
  const CurrentYear: int := 2025

  /** `generate_profile`: total on the integers. Despite its docstring, it never returns
      `None`: every age outside 1.. lands on `Unknown`. */
  function GenerateProfile(age: int): (stage: LifeStage)
    ensures stage == Child <==> 1 <= age <= 12
    ensures stage == Teenager <==> 13 <= age <= 19
    ensures stage == Adult <==> age >= 20
    ensures stage == Unknown <==> age <= 0
  {
    if 0 < age <= 12 then Child
    else if 13 <= age <= 19 then Teenager
    else if 20 <= age then Adult
    else Unknown
  }

  /** The position of a stage along a life; `Unknown` comes first. */
  function StageOrder(stage: LifeStage): nat {
    match stage
    case Unknown => 0
    case Child => 1
    case Teenager => 2
    case Adult => 3
  }

  /** Growing older never moves a person back to an earlier stage. */
  lemma StageMonotone(a: int, b: int)
    requires a <= b
    ensures StageOrder(GenerateProfile(a)) <= StageOrder(GenerateProfile(b))
  {
  }

  /** `2025 - birth_year`. */
  function CurrentAge(birthYear: int): int {
    CurrentYear - birthYear
  }

  /** Anyone born this year or later has age 0 or less, so is classified `Unknown`. */
  lemma BornThisYearOrLater(birthYear: int)
    requires birthYear >= CurrentYear
    ensures GenerateProfile(CurrentAge(birthYear)) == Unknown
  {
  }

  /** The hobby prompt loop: every answer is kept, in order, until the literal `stop`
      (compared exactly, without lowering), which is dropped. */
  method CollectHobbies(answers: seq<string>) returns (hobbies: seq<string>)
    ensures |hobbies| <= |answers| && hobbies == answers[..|hobbies|]
    ensures "stop" !in hobbies
    ensures |hobbies| < |answers| ==> answers[|hobbies|] == "stop"
  {
    hobbies := [];
    var i := 0;
    while i < |answers|
      invariant 0 <= i <= |answers|
      invariant hobbies == answers[..i]
      invariant "stop" !in hobbies
    {
      if answers[i] == "stop" {
        break;
      }
      hobbies := hobbies + [answers[i]];
      i := i + 1;
    }
  }

  /** The profile `main` assembles. */
  datatype Profile = Profile(
    name: string, birthYear: int, currentAge: int, lifeStage: LifeStage, hobbies: seq<string>)

  /** `main` without its prompts and printing: the answers are parameters. */
  method BuildProfile(name: string, birthYear: int, answers: seq<string>) returns (p: Profile)
    ensures p.name == name && p.birthYear == birthYear
    ensures p.currentAge == CurrentYear - birthYear
    ensures p.lifeStage == GenerateProfile(p.currentAge)
    ensures p.hobbies == TakeUntil(answers, "stop")
  {
    var age := CurrentAge(birthYear);
    var hobbies := CollectHobbies(answers);
    TakeUntilUnique(answers, "stop", hobbies);
    p := Profile(name, birthYear, age, GenerateProfile(age), hobbies);
  }
}
