/** PostScheduler.create_weekly_schedule: posts are laid out in their
    given order, two per day, over a fixed cycle of four daypart slots. */
module Scheduler {
  import opened Queue

  /** The daypart labels of the scheduler's cycle. */
  datatype TimeSlot = USMorning | IndiaEvening | USLunch | IndiaMorning

  /** The label the schedule stores in its `time_slot` key. */
  function Label(t: TimeSlot): string {
    match t
    case USMorning => "US_morning"
    case IndiaEvening => "India_evening"
    case USLunch => "US_lunch"
    case IndiaMorning => "India_morning"
  }

  /** The cycle, in the order the scheduler hands slots out. */
  const TimeSlots: seq<TimeSlot> := [USMorning, IndiaEvening, USLunch, IndiaMorning]

  /** How many consecutive posts share one day. */
  const PostsPerDay: nat := 2

  datatype ScheduleEntry = ScheduleEntry(day: int, timeSlot: TimeSlot, post: Post, posted: bool)

  /** The (day, slot) pair the scheduler gives to the post at position `i`:
      day d (counted from 1) holds positions 2(d - 1) and 2(d - 1) + 1, and
      the slots follow the cycle, one position per step. */
  function SlotOf(i: nat): (slot: (int, TimeSlot))
    ensures 1 <= slot.0 && (slot.0 - 1) * PostsPerDay <= i < slot.0 * PostsPerDay
    ensures slot.1 == TimeSlots[i % |TimeSlots|] && (i + 1) % |TimeSlots| != i % |TimeSlots|
  {
    (i / PostsPerDay + 1, TimeSlots[i % |TimeSlots|])
  }

  /** Days start at 1, never decrease along the schedule, hold at most
      `PostsPerDay` positions, and no day is skipped. */
  lemma SlotDays(i: nat, j: nat)
    requires i <= j
    ensures 1 <= SlotOf(i).0 <= SlotOf(j).0
    ensures j >= i + PostsPerDay ==> SlotOf(i).0 < SlotOf(j).0
    ensures j == i + 1 ==> SlotOf(j).0 <= SlotOf(i).0 + 1
  {
  }

  /** Two different positions never get the same (day, slot) pair: two
      positions on one day are neighbours, and neighbours get different
      slots of the cycle. */
  lemma SlotOfInjective(i: nat, j: nat)
    requires i < j
    ensures SlotOf(i) != SlotOf(j)
  {
  }

  /** Three posts land on (1, US_morning), (1, India_evening), (2, US_lunch). */
  lemma FirstSlots()
    ensures SlotOf(0) == (1, USMorning)
    ensures SlotOf(1) == (1, IndiaEvening)
    ensures SlotOf(2) == (2, USLunch)
    ensures SlotOf(3) == (2, IndiaMorning)
    ensures SlotOf(4) == (3, USMorning)
  {
  }

  /** One entry per post, in input order, each unposted, on the (day, slot)
      pair of its position: days start at 1, never decrease, hold at most
      two entries, and no (day, slot) pair is used twice. */
  method CreateWeeklySchedule(posts: seq<Post>) returns (schedule: seq<ScheduleEntry>)
    ensures |schedule| == |posts|
    ensures forall i :: 0 <= i < |schedule| ==>
      schedule[i].post == posts[i] && !schedule[i].posted
      && (schedule[i].day, schedule[i].timeSlot) == SlotOf(i)
    ensures forall i, j :: 0 <= i < j < |schedule| ==>
      (schedule[i].day, schedule[i].timeSlot) != (schedule[j].day, schedule[j].timeSlot)
    ensures forall i, j :: 0 <= i <= j < |schedule| ==> 1 <= schedule[i].day <= schedule[j].day
    ensures forall i, j :: 0 <= i && i + PostsPerDay <= j < |schedule| ==> schedule[i].day < schedule[j].day
  {
    schedule := [];
    var i := 0;
    while i < |posts|
      invariant 0 <= i <= |posts| && |schedule| == i
      invariant forall k :: 0 <= k < i ==>
        schedule[k].post == posts[k] && !schedule[k].posted
        && (schedule[k].day, schedule[k].timeSlot) == SlotOf(k)
    {
      var day := i / 2;
      var timeSlot := TimeSlots[i % |TimeSlots|];
      schedule := schedule + [ScheduleEntry(day + 1, timeSlot, posts[i], false)];
      i := i + 1;
    }
    forall i, j | 0 <= i < j < |schedule|
      ensures (schedule[i].day, schedule[i].timeSlot) != (schedule[j].day, schedule[j].timeSlot)
    {
      SlotOfInjective(i, j);
    }
    forall i, j | 0 <= i <= j < |schedule|
      ensures 1 <= schedule[i].day <= schedule[j].day
      ensures j >= i + PostsPerDay ==> schedule[i].day < schedule[j].day
    {
      SlotDays(i, j);
    }
  }
}
