/** The record shapes of the `user` collection (server/Models/user.js) and the
    schema rules mongoose applies when a record is cast from raw input:
    `required` (which for a String also rejects the empty string), `enum` and
    `default`. Raw input fields are optional values; a validated record holds
    only the present, checked values. Dates are milliseconds since the epoch. */
module UserModel {
  import opened Js

  type UserId = string
  type EmergencyId = string

  datatype MedicalEntry = MedicalEntry(condition: string, treatment: Option<string>, remarks: Option<string>)

  datatype Dependency = Dependency(id: string, phoneNumber: string)

  datatype SkillLevel = Adequate | Proficient | Professional

  datatype Skill = Skill(name: string, level: SkillLevel)

  datatype Emergency = Emergency(id: EmergencyId, isActive: bool, createdAt: nat, expiresAt: nat, image: Option<string>)

  /** `location.latitude` / `location.longitude`; None is the stored null,
      which means that the user's location is unknown. */
  datatype Location = Location(latitude: Option<real>, longitude: Option<real>)

  datatype User = User(
    id: UserId,
    username: string,
    name: string,
    birthday: nat,
    phoneNumber: string,
    address: string,
    gender: string,
    passwordHash: string,
    medical: seq<MedicalEntry>,
    skills: seq<Skill>,
    location: Location,
    dependencies: seq<Dependency>,
    emergencies: seq<Emergency>)

  /** mongoose's `required` check for a String path: present and non-empty. */
  predicate RequiredString(v: Option<string>) {
    v.Some? && v.value != ""
  }

  /** MedicalHistorySchema: condition is required, treatment and remarks are optional. */
  function CastMedical(condition: Option<string>, treatment: Option<string>, remarks: Option<string>): (r: Option<MedicalEntry>)
    ensures r.Some? <==> condition.Some? && condition.value != ""
    ensures r.Some? ==> r.value.condition == condition.value
                        && r.value.treatment == treatment && r.value.remarks == remarks
  {
    if RequiredString(condition) then Some(MedicalEntry(condition.value, treatment, remarks)) else None
  }

  /** The enum of SkillsSchema.level. */
  function ParseSkillLevel(s: string): (r: Option<SkillLevel>)
    ensures r.Some? <==> s in {"adequate", "proficient", "professional"}
    ensures r.Some? ==> SkillLevelName(r.value) == s
  {
    if s == "adequate" then Some(Adequate)
    else if s == "proficient" then Some(Proficient)
    else if s == "professional" then Some(Professional)
    else None
  }

  function SkillLevelName(l: SkillLevel): string {
    match l
    case Adequate => "adequate"
    case Proficient => "proficient"
    case Professional => "professional"
  }

  /** SkillsSchema: a required name and a required level from the enum. */
  function CastSkill(name: Option<string>, level: Option<string>): (r: Option<Skill>)
    ensures r.Some? <==> RequiredString(name) && RequiredString(level)
                         && level.value in {"adequate", "proficient", "professional"}
    ensures r.Some? ==> r.value.name == name.value && SkillLevelName(r.value.level) == level.value
  {
    if RequiredString(name) && RequiredString(level) then
      match ParseSkillLevel(level.value)
      case Some(l) => Some(Skill(name.value, l))
      case None => None
    else None
  }

  /** EmergencySchema: isActive and expiresAt are required, createdAt is
      required but defaults to the current time, Image is optional. */
  function CastEmergency(id: EmergencyId, isActive: Option<bool>, createdAt: Option<nat>, expiresAt: Option<nat>,
                         image: Option<string>, now: nat): (r: Option<Emergency>)
    ensures r.Some? <==> isActive.Some? && expiresAt.Some?
    ensures r.Some? ==> r.value.id == id && r.value.isActive == isActive.value
                        && r.value.expiresAt == expiresAt.value && r.value.image == image
    ensures r.Some? ==> r.value.createdAt == (if createdAt.Some? then createdAt.value else now)
  {
    if isActive.None? || expiresAt.None? then None
    else
      var created := match createdAt case Some(t) => t case None => now;
      Some(Emergency(id, isActive.value, created, expiresAt.value, image))
  }

  /** UserSchema.location when the input omits it: both coordinates null. */
  const UnknownLocation: Location := Location(None, None)

  predicate KnownLocation(loc: Location) {
    loc.latitude.Some? && loc.longitude.Some?
  }

  /** UserSchema.location: each coordinate is optional and defaults to null. */
  function CastLocation(latitude: Option<real>, longitude: Option<real>): (r: Location)
    ensures KnownLocation(r) <==> latitude.Some? && longitude.Some?
    ensures latitude.None? && longitude.None? ==> r == UnknownLocation
    ensures latitude.Some? ==> r.latitude == latitude
    ensures longitude.Some? ==> r.longitude == longitude
  {
    Location(latitude, longitude)
  }
}
